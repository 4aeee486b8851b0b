/** Decimal counters: mc_strtoull_len in mc_util.c and _item_add_delta in
    mc_items.c. */
module Counters {
  import opened Bytes

  const U64 := 0x1_0000_0000_0000_0000

  /** The largest numeral the parser accepts; it gives up on the six above. */
  const MAX_PARSED := U64 - 7

  predicate IsSpace(b: Byte) { b == 32 || 9 <= b <= 13 }

  predicate IsDigit(b: Byte) { 48 <= b <= 57 }

  // ---------- what a numeral is ----------

  predicate Spaces(s: Bytes, i: nat, j: nat)
    requires i <= j <= |s|
  {
    forall n :: i <= n < j ==> IsSpace(s[n])
  }

  predicate Digits(s: Bytes, i: nat, j: nat)
    requires i <= j <= |s|
  {
    forall n :: i <= n < j ==> IsDigit(s[n])
  }

  /** The value of the digits s[i..j]. */
  function DecVal(s: Bytes, i: nat, j: nat): nat
    requires i <= j <= |s| && Digits(s, i, j)
  {
    if i == j then 0 else 10 * DecVal(s, i, j - 1) + (s[j-1] as int - 48)
  }

  /** Optional spaces, digits, optional spaces. */
  predicate Reads(s: Bytes, i: nat, j: nat, v: nat) {
    && i <= j <= |s|
    && Spaces(s, 0, i) && Digits(s, i, j) && Spaces(s, j, |s|)
    && v == DecVal(s, i, j)
  }

  /** The whole string, which must not be empty, spells v. */
  ghost predicate IsNumeral(s: Bytes, v: nat) {
    s != [] && v <= MAX_PARSED && exists i: nat, j: nat :: Reads(s, i, j, v)
  }

  /** A string spells at most one number. */
  lemma ReadsUnique(s: Bytes, i: nat, j: nat, v: nat, i': nat, j': nat, v': nat)
    requires Reads(s, i, j, v) && Reads(s, i', j', v')
    ensures v == v'
  {
    if i < j {
      assert IsDigit(s[i]) && IsDigit(s[j-1]);
    }
    if i' < j' {
      assert IsDigit(s[i']) && IsDigit(s[j'-1]);
    }
  }

  /** The parse as a function of the string, for use in specifications. */
  ghost function Parse(s: Bytes): (r: Option<nat>)
    ensures r.Some? ==> IsNumeral(s, r.value)
    ensures r.None? ==> forall v: nat :: !IsNumeral(s, v)
  {
    if v: nat :| IsNumeral(s, v) then Some(v) else None
  }

  lemma ParseIs(s: Bytes, v: nat)
    requires IsNumeral(s, v)
    ensures Parse(s) == Some(v)
  {
    var v' := Parse(s).value;
    var i: nat, j: nat :| Reads(s, i, j, v);
    var i': nat, j': nat :| Reads(s, i', j', v');
    ReadsUnique(s, i, j, v, i', j', v');
  }

  // ---------- the parser ----------

  /** mc_skip_space */
  method SkipSpace(s: Bytes, start: nat) returns (i: nat)
    requires start <= |s|
    ensures start <= i <= |s| && Spaces(s, start, i)
    ensures i < |s| ==> !IsSpace(s[i])
  {
    i := start;
    while i < |s| && IsSpace(s[i])
      invariant start <= i <= |s| && Spaces(s, start, i)
    {
      i := i + 1;
    }
  }

  /** mc_strtoull_len: the number the string spells, and nothing when it spells
      none or one above MAX_PARSED. */
  method StrToU64(s: Bytes) returns (r: Option<nat>)
    ensures r == Parse(s)
  {
    if |s| == 0 {
      return None;
    }
    var i := SkipSpace(s, 0);
    var j := i;
    var out: nat := 0;
    while j < |s| && IsDigit(s[j])
      invariant i <= j <= |s| && Digits(s, i, j) && out == DecVal(s, i, j)
      invariant out <= MAX_PARSED
    {
      if out >= (U64 - 1) / 10 {
        TooLarge(s, i, j);
        return None;
      }
      out := out * 10 + s[j] as int - 48;
      j := j + 1;
    }
    var k := SkipSpace(s, j);
    if k == |s| {
      assert Reads(s, i, j, out);
      ParseIs(s, out);
      return Some(out);
    }
    Trailing(s, i, j, k);
    return None;
  }

  lemma {:induction false} DecValGrows(s: Bytes, i: nat, j: nat, k: nat)
    requires i <= j <= k <= |s| && Digits(s, i, k)
    ensures DecVal(s, i, j) <= DecVal(s, i, k)
  {
    if j < k {
      DecValGrows(s, i, j, k - 1);
    }
  }

  /** A value at or above (2^64-1)/10 with one more digit is out of range. */
  lemma TooLarge(s: Bytes, i: nat, j: nat)
    requires i <= j < |s| && Spaces(s, 0, i) && Digits(s, i, j + 1)
    requires DecVal(s, i, j) >= (U64 - 1) / 10
    ensures Parse(s) == None
  {
    forall v: nat, i': nat, j': nat | Reads(s, i', j', v) ensures v > MAX_PARSED {
      ReadsLarger(s, i, j, v, i', j');
    }
  }

  lemma ReadsLarger(s: Bytes, i: nat, j: nat, v: nat, i': nat, j': nat)
    requires i <= j < |s| && Spaces(s, 0, i) && Digits(s, i, j + 1) && Reads(s, i', j', v)
    requires DecVal(s, i, j) >= (U64 - 1) / 10
    ensures v > MAX_PARSED
  {
    assert IsDigit(s[i]) && IsDigit(s[j]);
    assert i' <= i && j < j';
    assert IsDigit(s[i']);
    DecValGrows(s, i, j + 1, j');
  }

  /** A leftover character makes the string no numeral. */
  lemma Trailing(s: Bytes, i: nat, j: nat, k: nat)
    requires i <= j <= k < |s|
    requires Spaces(s, 0, i) && Digits(s, i, j) && Spaces(s, j, k)
    requires !IsSpace(s[k]) && !IsDigit(s[j]) && (i == j ==> i == k)
    ensures Parse(s) == None
  {
    forall v: nat, i': nat, j': nat ensures !Reads(s, i', j', v) {
      assert i < j ==> IsDigit(s[i]);
    }
  }

  // ---------- printing ----------

  function Digit(d: nat): Byte
    requires d < 10
  {
    48 + d
  }

  /** snprintf with the 64-bit unsigned format */
  function Print(v: nat): (r: Bytes)
    ensures r != [] && Digits(r, 0, |r|)
  {
    if v < 10 then [Digit(v)] else Print(v / 10) + [Digit(v % 10)]
  }

  lemma {:induction false} DecValPrefix(s: Bytes, t: Bytes, j: nat)
    requires j <= |s| && Digits(s, 0, j)
    ensures Digits(s + t, 0, j) && DecVal(s + t, 0, j) == DecVal(s, 0, j)
  {
    if j > 0 {
      DecValPrefix(s, t, j - 1);
    }
  }

  lemma {:induction false} PrintValue(v: nat)
    ensures DecVal(Print(v), 0, |Print(v)|) == v
  {
    if v < 10 {
      assert DecVal([Digit(v)], 0, 1) == v;
    } else {
      PrintValue(v / 10);
      DecValPrefix(Print(v / 10), [Digit(v % 10)], |Print(v / 10)|);
    }
  }

  /** Parsing undoes printing exactly up to 2^64 - 7 and rejects anything above. */
  lemma ParsePrint(v: nat)
    ensures Parse(Print(v)) == if v <= MAX_PARSED then Some(v) else None
  {
    var s := Print(v);
    PrintValue(v);
    assert Reads(s, 0, |s|, v);
    if v <= MAX_PARSED {
      ParseIs(s, v);
    } else {
      forall v': nat ensures !IsNumeral(s, v') {
        if v' <= MAX_PARSED {
          forall i: nat, j: nat ensures !Reads(s, i, j, v') {
            if Reads(s, i, j, v') { ReadsUnique(s, 0, |s|, v, i, j, v'); }
          }
        }
      }
    }
  }

  // ---------- increments and decrements ----------

  /** The arithmetic of _item_add_delta on unsigned 64-bit values: an increment
      wraps, a decrement stops at zero. */
  function Bump(value: nat, incr: bool, delta: nat): nat {
    if incr then (value + delta) % U64
    else if delta > value then 0
    else value - delta
  }

  /** The payload after the command; None when it is not a number. */
  ghost function AddDelta(payload: Bytes, incr: bool, delta: nat): (r: Option<Bytes>)
    ensures r.Some? ==> r.value != []
  {
    match Parse(payload)
    case None => None
    case Some(v) => Some(Print(Bump(v, incr, delta)))
  }

  /** An item payload: the first nbyte bytes of a left-aligned data area. */
  class Payload {
    var data: array<Byte>
    var nbyte: nat

    ghost predicate Valid() reads this { nbyte <= data.Length }

    ghost function Contents(): Bytes reads this, data requires Valid() { data[..nbyte] }

    /** _item_add_delta: the result is written over the old payload when it is no
        longer than it, and into a new item otherwise. */
    method AddDeltaTo(incr: bool, delta: nat) returns (ok: bool)
      requires Valid()
      modifies this, data
      ensures Valid()
      ensures ok == AddDelta(old(Contents()), incr, delta).Some?
      ensures ok ==> Contents() == AddDelta(old(Contents()), incr, delta).value
      ensures !ok ==> Contents() == old(Contents())
      ensures data == old(data) || fresh(data)
    {
      var v := StrToU64(data[..nbyte]);
      if v.None? {
        return false;
      }
      var buf := Print(Bump(v.value, incr, delta));
      if |buf| > nbyte {
        data := new Byte[|buf|](_ => 0);
      }
      var target := data;
      for i := 0 to |buf|
        invariant target == data && target.Length >= |buf|
        invariant target[..i] == buf[..i]
      {
        target[i] := buf[i];
      }
      nbyte := |buf|;
      return true;
    }
  }

  function Sum(deltas: seq<nat>): nat {
    if deltas == [] then 0 else Sum(deltas[..|deltas|-1]) + deltas[|deltas|-1]
  }

  /** A counter after a run of increments, None once one of them failed. */
  ghost function IncrementAll(v: nat, deltas: seq<nat>): (r: Option<Bytes>) {
    if deltas == [] then Some(Print(v))
    else
      match IncrementAll(v, deltas[..|deltas|-1])
      case None => None
      case Some(p) => AddDelta(p, true, deltas[|deltas|-1])
  }

  /** The counter's value after the first n increments. */
  function ValueAfter(v: nat, deltas: seq<nat>, n: nat): nat
    requires n <= |deltas|
  {
    (v + Sum(deltas[..n])) % U64
  }

  /** Every value that an increment of the run starts from is one the parser takes. */
  ghost predicate AllParse(v: nat, deltas: seq<nat>) {
    forall n :: 0 <= n < |deltas| ==> ValueAfter(v, deltas, n) <= MAX_PARSED
  }

  lemma AllParseLast(v: nat, deltas: seq<nat>)
    requires deltas != []
    ensures var m := |deltas| - 1;
            AllParse(v, deltas) <==> AllParse(v, deltas[..m]) && ValueAfter(v, deltas, m) <= MAX_PARSED
  {
    var m := |deltas| - 1;
    forall n | 0 <= n <= m ensures ValueAfter(v, deltas[..m], n) == ValueAfter(v, deltas, n) {
      ValueAfterPrefix(v, deltas, m, n);
    }
  }

  /** A run of increments succeeds exactly when every value it starts an
      increment from is one the parser accepts, and then it holds the sum modulo
      2^64. */
  lemma {:induction false} IncrementRun(v: nat, deltas: seq<nat>)
    requires v < U64
    ensures IncrementAll(v, deltas).Some? <==> AllParse(v, deltas)
    ensures IncrementAll(v, deltas).Some? ==>
              IncrementAll(v, deltas) == Some(Print(ValueAfter(v, deltas, |deltas|)))
  {
    if deltas == [] {
      assert deltas[..0] == deltas;
    } else {
      var m := |deltas| - 1;
      IncrementRun(v, deltas[..m]);
      AllParseLast(v, deltas);
      ValueAfterPrefix(v, deltas, m, m);
      ValueAfterStep(v, deltas);
      if IncrementAll(v, deltas[..m]).Some? {
        IncrementLast(v, deltas);
      }
    }
  }

  lemma IncrementLast(v: nat, deltas: seq<nat>)
    requires deltas != []
    requires var m := |deltas| - 1; IncrementAll(v, deltas[..m]) == Some(Print(ValueAfter(v, deltas, m)))
    ensures var m := |deltas| - 1;
            IncrementAll(v, deltas) ==
              if ValueAfter(v, deltas, m) <= MAX_PARSED then Some(Print((ValueAfter(v, deltas, m) + deltas[m]) % U64))
              else None
  {
    var m := |deltas| - 1;
    IncrementOnce(ValueAfter(v, deltas, m), deltas[m]);
  }

  lemma ValueAfterPrefix(v: nat, deltas: seq<nat>, m: nat, n: nat)
    requires n <= m <= |deltas|
    ensures ValueAfter(v, deltas[..m], n) == ValueAfter(v, deltas, n)
  {
    assert deltas[..m][..n] == deltas[..n];
  }

  lemma IncrementOnce(v: nat, delta: nat)
    ensures AddDelta(Print(v), true, delta)
         == if v <= MAX_PARSED then Some(Print((v + delta) % U64)) else None
  {
    ParsePrint(v);
  }

  lemma ValueAfterStep(v: nat, deltas: seq<nat>)
    requires deltas != []
    ensures var m := |deltas| - 1;
            ValueAfter(v, deltas, m + 1) == (ValueAfter(v, deltas, m) + deltas[m]) % U64
  {
    var m := |deltas| - 1;
    assert deltas[..m+1] == deltas;
    ModStep(v + Sum(deltas[..m]), deltas[m]);
  }

  lemma ModStep(x: nat, d: nat)
    ensures (x % U64 + d) % U64 == (x + d) % U64
  {
    var q := x / U64;
    assert x == q * U64 + x % U64;
    var y := x % U64 + d;
    assert x + d == q * U64 + y;
    assert y == (y / U64) * U64 + y % U64;
    assert x + d == (q + y / U64) * U64 + y % U64;
  }

  /** Decrements never go below zero and never fail on an accepted value. */
  lemma DecrementClamps(v: nat, delta: nat)
    requires v <= MAX_PARSED
    ensures AddDelta(Print(v), false, delta) == Some(Print(if delta > v then 0 else v - delta))
  {
    ParsePrint(v);
  }
}
