/** The key matrix: the debounce filter and the ring of changed matrices behind it
    (src/drv_sdk/drv_keyboard.c:99-118, 248-249, 284-306). */
module KeyRing {

  /** One row of the matrix for each drive pin. */
  type Matrix = seq<bv32>

  /** The filter's new output for a row. */
  function Filtered(last: bv32, pre: bv32, cur: bv32): bv32 {
    (!last & (pre & cur)) | (last & (pre | cur))
  }

  /** It is the majority of the last output, the sample before and this sample, bit by bit. */
  lemma FilteredIsMajority(last: bv32, pre: bv32, cur: bv32)
    ensures Filtered(last, pre, cur) == (last & pre) | (last & cur) | (pre & cur)
  {
  }

  /** A bit of the output changes only to a value seen in two samples running. */
  lemma ChangeNeedsTwoSamples(last: bv32, pre: bv32, cur: bv32)
    ensures (Filtered(last, pre, cur) ^ last) & (pre ^ cur) == 0
    ensures (Filtered(last, pre, cur) ^ last) & (Filtered(last, pre, cur) ^ cur) == 0
  {
  }

  /** So one stray sample among steady ones, whatever it holds, is never seen. */
  lemma GlitchUnseen(v: bv32, stray: bv32)
    ensures Filtered(v, v, stray) == v && Filtered(v, stray, v) == v && Filtered(v, v, v) == v
  {
  }

  /** A queue of at most four that drops its oldest element when it overflows. */
  function Pushed(q: seq<Matrix>, m: Matrix): (r: seq<Matrix>)
    requires |q| <= 4
    ensures |r| <= 4
  {
    if |q| == 4 then q[1..] + [m] else q + [m]
  }

  /** What the scan does with the queue: a changed matrix goes in, or the oldest one is read. */
  datatype Use = Put(m: Matrix) | Take

  datatype Queue = Queue(waiting: seq<Matrix>, read: seq<Matrix>)

  function RunUses(q: seq<Matrix>, uses: seq<Use>): (r: Queue)
    requires |q| <= 4
    ensures |r.waiting| <= 4
  {
    if uses == [] then Queue(q, [])
    else
      var r := RunUses(q, uses[..|uses| - 1]);
      match uses[|uses| - 1]
      case Put(m) => r.(waiting := Pushed(r.waiting, m))
      case Take => if r.waiting == [] then r else Queue(r.waiting[1..], r.read + [r.waiting[0]])
  }

  /** Everything put in, in order. */
  function Puts(uses: seq<Use>): seq<Matrix> {
    if uses == [] then []
    else
      var before := Puts(uses[..|uses| - 1]);
      if uses[|uses| - 1].Put? then before + [uses[|uses| - 1].m] else before
  }

  /** When these places of a sequence of n have been read: the place behind the last of them, or that of
      the fourth from the end, whichever is later. */
  function Oldest(places: seq<nat>, n: nat): nat {
    var after := if places == [] then 0 else places[|places| - 1] + 1;
    if after + 4 < n then n - 4 else after
  }

  /** The places that are read, by that rule alone, when n matrices wait at first. */
  function Places(n: nat, uses: seq<Use>): (p: seq<nat>) {
    if uses == [] then []
    else
      var before := uses[..|uses| - 1];
      var p := Places(n, before);
      var total := n + |Puts(before)|;
      if uses[|uses| - 1].Take? && Oldest(p, total) < total then p + [Oldest(p, total)] else p
  }

  /** Over every run of reads and writes: each read returns the oldest one not yet read among the newest
      four, so reads come in order and none twice, one is missed only when four newer ones came in before
      it was read, and what waits is what is neither read nor missed. */
  lemma {:induction false} KeepsNewest(q: seq<Matrix>, uses: seq<Use>)
    requires |q| <= 4
    ensures Keeps(q + Puts(uses), Places(|q|, uses), RunUses(q, uses))
  {
    if uses == [] {
      assert q + Puts(uses) == q;
    } else {
      var before := uses[..|uses| - 1];
      KeepsNewest(q, before);
      var all, places, r := q + Puts(before), Places(|q|, before), RunUses(q, before);
      match uses[|uses| - 1] {
        case Put(m) =>
          KeepsPut(all, places, r, m, Oldest(places, |all|));
          assert q + (Puts(before) + [m]) == all + [m];
        case Take => KeepsTake(all, places, r, Oldest(places, |all|));
      }
    }
  }

  ghost predicate Keeps(all: seq<Matrix>, places: seq<nat>, r: Queue) {
    && Oldest(places, |all|) <= |all| && r.waiting == all[Oldest(places, |all|)..]
    && |r.read| == |places| && (forall i :: 0 <= i < |places| ==> places[i] < |all| && r.read[i] == all[places[i]])
    && (forall i, j :: 0 <= i < j < |places| ==> places[i] < places[j])
  }

  lemma KeepsPut(all: seq<Matrix>, places: seq<nat>, r: Queue, m: Matrix, o: nat)
    requires Keeps(all, places, r) && |r.waiting| <= 4 && o == Oldest(places, |all|)
    ensures Keeps(all + [m], places, r.(waiting := Pushed(r.waiting, m)))
  {
    PutWaits(all, o, m);
    assert Oldest(places, |all| + 1) == if |all| == o + 4 then o + 1 else o;
  }

  lemma PutWaits(all: seq<Matrix>, o: nat, m: Matrix)
    requires o <= |all| <= o + 4
    ensures Pushed(all[o..], m) == if |all| == o + 4 then (all + [m])[o + 1..] else (all + [m])[o..]
  {
  }

  lemma KeepsTake(all: seq<Matrix>, places: seq<nat>, r: Queue, o: nat)
    requires Keeps(all, places, r) && o == Oldest(places, |all|)
    ensures o < |all| <==> r.waiting != []
    ensures o < |all| ==> Keeps(all, places + [o], Queue(r.waiting[1..], r.read + [r.waiting[0]]))
  {
    if o < |all| {
      assert r.waiting[0] == all[o] && r.waiting[1..] == all[o + 1..];
      assert Oldest(places + [o], |all|) == o + 1;
    }
  }

  function Mod8(n: int): (r: nat)
    requires -8 <= n < 16
    ensures r < 8
  {
    if n < 0 then n + 8 else if n < 8 then n else n - 8
  }

  function Slot(n: nat): (r: nat)
    requires n < 16
    ensures r < 4
  {
    if n < 4 then n else if n < 8 then n - 4 else if n < 12 then n - 8 else n - 12
  }

  /** The n matrices from slot r on, oldest first. */
  function Ring(slots: seq<Matrix>, r: nat, n: nat): (q: seq<Matrix>)
    requires |slots| == 4 && r < 8 && n <= 4
    ensures |q| == n
  {
    seq(n, k requires 0 <= k < n => slots[Slot(r + k)])
  }

  /** Writing the slot behind the last one appends, and in a full ring overwrites the oldest. */
  lemma RingPush(slots: seq<Matrix>, w: nat, r: nat, m: Matrix)
    requires |slots| == 4 && w < 8 && r < 8 && Mod8(w - r) <= 4
    ensures var n, slots' := Mod8(w - r), slots[Slot(w) := m];
      if n == 4 then Mod8(Mod8(w + 1) - r) > 4 && Ring(slots', Mod8(Mod8(w + 1) - 4), 4) == Ring(slots, r, 4)[1..] + [m]
      else Mod8(Mod8(w + 1) - r) == n + 1 && Ring(slots', r, n + 1) == Ring(slots, r, n) + [m]
  {
    var n, slots' := Mod8(w - r), slots[Slot(w) := m];
    if n == 4 {
      var r' := Mod8(Mod8(w + 1) - 4);
      forall k | 0 <= k < 4 ensures Ring(slots', r', 4)[k] == (Ring(slots, r, 4)[1..] + [m])[k] {
        if k < 3 {
          assert Slot(r' + k) == Slot(r + (k + 1)) != Slot(w);
          assert Ring(slots, r, 4)[1..][k] == Ring(slots, r, 4)[k + 1];
        } else {
          assert Slot(r' + k) == Slot(w);
        }
      }
    } else {
      forall k | 0 <= k <= n ensures Ring(slots', r, n + 1)[k] == (Ring(slots, r, n) + [m])[k] {
        if k < n { assert Slot(r + k) != Slot(w); } else { assert Slot(r + k) == Slot(w); }
      }
    }
  }

  lemma RingPop(slots: seq<Matrix>, r: nat, n: nat)
    requires |slots| == 4 && r < 8 && 0 < n <= 4
    ensures Ring(slots, r, n) == [slots[Slot(r)]] + Ring(slots, Mod8(r + 1), n - 1)
  {
    forall k | 0 < k < n ensures Ring(slots, r, n)[k] == Ring(slots, Mod8(r + 1), n - 1)[k - 1] {
      assert Slot(Mod8(r + 1) + (k - 1)) == Slot(r + k);
    }
  }

  class Keyboard {
    const buff: array<Matrix>
    var wptr: nat
    var rptr: nat
    var mtrxPre: Matrix
    var mtrxLast: Matrix

    ghost predicate Valid()
      reads this
    {
      && buff.Length == 4 && wptr < 8 && rptr < 8 && Mod8(wptr - rptr) <= 4
      && |mtrxPre| == |mtrxLast|
    }

    /** The matrices waiting to be read, oldest first. */
    ghost function Contents(): (q: seq<Matrix>)
      requires Valid()
      reads this, buff
      ensures |q| == Mod8(wptr - rptr)
    {
      Ring(buff[..], rptr, Mod8(wptr - rptr))
    }

    constructor (rows: nat)
      ensures Valid() && Contents() == [] && mtrxPre == mtrxLast == seq(rows, _ => 0) && fresh(buff)
    {
      buff := new Matrix[4](_ => []);
      wptr, rptr := 0, 0;
      mtrxPre, mtrxLast := seq(rows, _ => 0), seq(rows, _ => 0);
    }

    /** key_debounce_filter with the filter on: the filtered matrix, and whether it changed. */
    method DebounceFilter(cur: Matrix) returns (kc: bool, out: Matrix)
      requires Valid() && |cur| == |mtrxLast|
      modifies this`mtrxPre, this`mtrxLast
      ensures Valid() && |out| == |cur| && mtrxPre == cur && mtrxLast == out
      ensures forall i :: 0 <= i < |cur| ==> out[i] == Filtered(old(mtrxLast)[i], old(mtrxPre)[i], cur[i])
      ensures kc <==> out != old(mtrxLast)
    {
      kc, out := false, [];
      ghost var last0, pre0 := mtrxLast, mtrxPre;
      var i := 0;
      while i < |cur|
        invariant 0 <= i <= |cur| && |out| == i && |mtrxPre| == |mtrxLast| == |cur|
        invariant forall k :: 0 <= k < i ==> out[k] == Filtered(last0[k], pre0[k], cur[k])
        invariant kc <==> exists k :: 0 <= k < i && out[k] != last0[k]
        invariant forall k :: 0 <= k < i ==> mtrxPre[k] == cur[k] && mtrxLast[k] == out[k]
        invariant forall k :: i <= k < |cur| ==> mtrxPre[k] == pre0[k] && mtrxLast[k] == last0[k]
      {
        var tmp := cur[i];
        var v := Filtered(mtrxLast[i], mtrxPre[i], tmp);
        if v != mtrxLast[i] { kc := true; }
        mtrxPre := mtrxPre[i := tmp];
        mtrxLast := mtrxLast[i := v];
        out := out + [v];
        i := i + 1;
      }
      assert kc ==> out != last0;
    }

    /** A changed matrix goes into the ring: the oldest one is overwritten when the ring is full. */
    method Push(m: Matrix)
      requires Valid()
      modifies this`wptr, this`rptr, buff
      ensures Valid() && Contents() == Pushed(old(Contents()), m)
    {
      RingPush(buff[..], wptr, rptr, m);
      buff[Slot(wptr)] := m;
      assert buff[..] == old(buff[..])[Slot(wptr) := m];
      wptr := Mod8(wptr + 1);
      if Mod8(wptr - rptr) > 4 {
        rptr := Mod8(wptr - 4);
      }
    }

    /** The read half of kb_scan_key. */
    method Pop(readKey: bool) returns (found: bool, m: Matrix)
      requires Valid()
      modifies this`rptr
      ensures Valid() && (found <==> readKey && old(Contents()) != [])
      ensures if found then [m] + Contents() == old(Contents()) else Contents() == old(Contents())
    {
      if wptr == rptr || !readKey { return false, []; }
      RingPop(buff[..], rptr, Mod8(wptr - rptr));
      found, m := true, buff[Slot(rptr)];
      rptr := Mod8(rptr + 1);
    }
  }
}
