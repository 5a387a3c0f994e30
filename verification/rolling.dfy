/** The `Rolling` class of main.py: a fixed-size ring of (value, mark)
    slots with a running sum, used for the rolling phase average.  Values
    are floats in the source and exact reals here. */
module Averaging {
  import opened Wrappers
  import opened Bits

  /** One slot: the stored value (`None` once purged) and its mark. */
  datatype Slot = Slot(value: Option<real>, mark: int)

  datatype Rolling = Rolling(max: int, data: seq<Slot>, dsum: real, enter: int, exit: int, size: int)

  /** `Rolling(size)`: every slot holds 0.0 with mark 0, nothing is live. */
  function Init(size: int): (r: Rolling)
    ensures size >= 1 ==> Inv(r) && Values(r) == [] && Marks(r) == []
  {
    Rolling(size, seq(if size < 0 then 0 else size, _ => Slot(Some(0.0), 0)), 0.0, 0, 0, 0)
  }

  /** `x` brought back into the ring when it has passed the end once. */
  function Wrap(x: int, m: int): int
  {
    if x < m then x else x - m
  }

  /** The source's `(x + 1) % max` on an index of the ring is one wrap. */
  lemma {:induction false} NextSlot(x: int, m: int)
    requires 0 <= x < m
    ensures (x + 1) % m == Wrap(x + 1, m)
  {
    if x + 1 < m {
      DivModUnique(x + 1, m, 0, x + 1);
    } else {
      DivModUnique(x + 1, m, 1, 0);
    }
  }

  /** The ring position of the `i`-th live slot, oldest first. */
  function Pos(r: Rolling, i: int): int
  {
    Wrap(r.exit + i, r.max)
  }

  /** The live slots, oldest first. */
  function LiveSlots(r: Rolling): (s: seq<Slot>)
    requires r.max >= 1 && |r.data| == r.max && 0 <= r.size
    ensures |s| == r.size
  {
    seq(r.size, i requires 0 <= i < r.size => r.data[if 0 <= Pos(r, i) < r.max then Pos(r, i) else 0])
  }

  function ValueOf(s: Slot): real
  {
    if s.value.Some? then s.value.value else 0.0
  }

  /** The sum of a list of reals, added up in order. */
  function RSum(s: seq<real>): real
  {
    if |s| == 0 then 0.0 else RSum(s[..|s| - 1]) + s[|s| - 1]
  }

  /** The ring's state between calls: indices in range, at most `max` live
      slots starting at `exit` and ending before `enter`, every live slot
      holding a value, and `dsum` their sum. */
  ghost predicate Inv(r: Rolling)
  {
    r.max >= 1 && |r.data| == r.max &&
    0 <= r.exit < r.max && 0 <= r.enter < r.max && 0 <= r.size <= r.max &&
    r.enter == Wrap(r.exit + r.size, r.max) &&
    AllHeld(LiveSlots(r)) &&
    r.dsum == RSum(Values(r))
  }

  predicate AllHeld(s: seq<Slot>)
  {
    forall i :: 0 <= i < |s| ==> s[i].value.Some?
  }

  function Vals(s: seq<Slot>): (v: seq<real>)
    ensures |v| == |s|
  {
    seq(|s|, i requires 0 <= i < |s| => ValueOf(s[i]))
  }

  function MarksOf(s: seq<Slot>): (m: seq<int>)
    ensures |m| == |s|
  {
    seq(|s|, i requires 0 <= i < |s| => s[i].mark)
  }

  /** Values and marks follow the slots through dropping the oldest and
      appending. */
  lemma {:induction false} SlotLists(s: seq<Slot>, n: Slot, drop: bool)
    requires drop ==> |s| >= 1
    ensures var k := if drop then s[1..] else s;
      Vals(k + [n]) == (if drop then Vals(s)[1..] else Vals(s)) + [ValueOf(n)] &&
      MarksOf(k + [n]) == (if drop then MarksOf(s)[1..] else MarksOf(s)) + [n.mark] &&
      Vals(k) == (if drop then Vals(s)[1..] else Vals(s)) &&
      MarksOf(k) == (if drop then MarksOf(s)[1..] else MarksOf(s)) &&
      (AllHeld(s) && n.value.Some? ==> AllHeld(k + [n]) && AllHeld(k))
  {
  }

  /** The live values, oldest first. */
  function Values(r: Rolling): (v: seq<real>)
    requires r.max >= 1 && |r.data| == r.max && 0 <= r.size
    ensures |v| == r.size
  {
    Vals(LiveSlots(r))
  }

  /** The live marks, oldest first. */
  function Marks(r: Rolling): (m: seq<int>)
    requires r.max >= 1 && |r.data| == r.max && 0 <= r.size
    ensures |m| == r.size
  {
    MarksOf(LiveSlots(r))
  }

  /** `store(data, mark)`: when full the oldest value leaves the sum and
      the window; the new value is written at `enter` and added. */
  function Store(r: Rolling, x: real, mark: int): (r': Rolling)
    requires Inv(r)
    ensures Inv(r')
    ensures r'.max == r.max
    ensures r'.size == if r.size < r.max then r.size + 1 else r.max
    ensures Values(r') == (if r.size == r.max then Values(r)[1..] else Values(r)) + [x]
    ensures Marks(r') == (if r.size == r.max then Marks(r)[1..] else Marks(r)) + [mark]
  {
    var full := r.size == r.max;
    var dsum := if full then r.dsum - ValueOf(r.data[r.exit]) else r.dsum;
    var exit := if full then (r.exit + 1) % r.max else r.exit;
    var r' := Rolling(r.max, r.data[r.enter := Slot(Some(x), mark)], dsum + x,
                      (r.enter + 1) % r.max, exit, if r.size < r.max then r.size + 1 else r.size);
    NextSlot(r.enter, r.max);
    NextSlot(r.exit, r.max);
    StoreFacts(r, r', x, mark);
    r'
  }

  /** What the store's new state holds, given how it was built. */
  lemma {:induction false} StoreFacts(r: Rolling, r': Rolling, x: real, mark: int)
    requires Inv(r)
    requires r'.max == r.max && r'.data == r.data[r.enter := Slot(Some(x), mark)]
    requires r'.exit == (if r.size == r.max then Wrap(r.exit + 1, r.max) else r.exit)
    requires r'.size == (if r.size < r.max then r.size + 1 else r.size)
    requires r'.enter == Wrap(r.enter + 1, r.max)
    requires r'.dsum == (if r.size == r.max then r.dsum - ValueOf(r.data[r.exit]) else r.dsum) + x
    ensures Inv(r')
    ensures Values(r') == (if r.size == r.max then Values(r)[1..] else Values(r)) + [x]
    ensures Marks(r') == (if r.size == r.max then Marks(r)[1..] else Marks(r)) + [mark]
  {
    var full := r.size == r.max;
    StoreSlots(r, r', x, mark);
    SlotLists(LiveSlots(r), Slot(Some(x), mark), full);
    if full {
      assert Values(r)[0] == ValueOf(r.data[r.exit]);
    }
    RunningSum(Values(r), Values(r'), r.dsum, r'.dsum, ValueOf(r.data[r.exit]), x, full);
  }

  /** The running sum stays the sum of the window when one value leaves
      from the front and one joins at the back. */
  lemma {:induction false} RunningSum(vs: seq<real>, ws: seq<real>, sum: real, sum': real,
                                      v0: real, x: real, drop: bool)
    requires sum == RSum(vs)
    requires drop ==> |vs| >= 1 && vs[0] == v0
    requires ws == (if drop then vs[1..] else vs) + [x]
    requires sum' == (if drop then sum - v0 else sum) + x
    ensures sum' == RSum(ws)
  {
    if drop {
      RSumFront(vs);
    }
    AppendSum(if drop then vs[1..] else vs, x);
  }

  lemma {:induction false} AppendSum(s: seq<real>, x: real)
    ensures RSum(s + [x]) == RSum(s) + x
  {
    assert (s + [x])[..|s|] == s;
  }

  /** The live window after a store is the old one, less its oldest slot
      when full, followed by the new slot. */
  lemma {:induction false} StoreSlots(r: Rolling, r': Rolling, x: real, mark: int)
    requires Inv(r)
    requires r'.max == r.max && r'.data == r.data[r.enter := Slot(Some(x), mark)]
    requires r'.exit == (if r.size == r.max then Wrap(r.exit + 1, r.max) else r.exit)
    requires r'.size == (if r.size < r.max then r.size + 1 else r.size)
    ensures LiveSlots(r') ==
            (if r.size == r.max then LiveSlots(r)[1..] else LiveSlots(r)) + [Slot(Some(x), mark)]
  {
    NextSlot(r.exit, r.max);
    var kept := if r.size == r.max then LiveSlots(r)[1..] else LiveSlots(r);
    forall i | 0 <= i < r'.size
      ensures LiveSlots(r')[i] == (kept + [Slot(Some(x), mark)])[i]
    {
    }
  }

  /** Summing a list starting from its head. */
  lemma {:induction false} RSumFront(s: seq<real>)
    requires |s| >= 1
    ensures RSum(s) == s[0] + RSum(s[1..])
    decreases |s|
  {
    if |s| > 1 {
      RSumFront(s[..|s| - 1]);
      assert s[..|s| - 1][1..] == s[1..][..|s| - 2];
      assert s[1..][|s| - 2] == s[|s| - 1];
    } else {
      assert s[..0] == [];
      assert s[1..] == [];
    }
  }

  /** `read()`: the mean of the live values, or nothing when empty. */
  function Read(r: Rolling): (m: Option<real>)
    requires Inv(r)
    ensures m.Some? <==> r.size > 0
    ensures m.Some? ==> m.value == RSum(Values(r)) / (r.size as real)
  {
    if r.size > 0 then Some(r.dsum / (r.size as real)) else None
  }

  /** `store_read(data, mark)`. */
  function StoreRead(r: Rolling, x: real, mark: int): (res: (Rolling, Option<real>))
    requires Inv(r)
    ensures res.0 == Store(r, x, mark) && Inv(res.0) && res.0.size >= 1
    ensures res.1 == Some(RSum(Values(res.0)) / (res.0.size as real))
  {
    var r' := Store(r, x, mark);
    (r', Read(r'))
  }

  /** One purge step: the oldest value leaves the sum and the window and
      its slot is emptied. */
  function DropOldest(r: Rolling): (r': Rolling)
    requires Inv(r) && r.size > 0
    ensures Inv(r') && r'.max == r.max && r'.size == r.size - 1
    ensures Values(r') == Values(r)[1..] && Marks(r') == Marks(r)[1..]
  {
    var r' := r.(dsum := r.dsum - ValueOf(r.data[r.exit]),
                 data := r.data[r.exit := r.data[r.exit].(value := None)],
                 exit := (r.exit + 1) % r.max, size := r.size - 1);
    NextSlot(r.exit, r.max);
    DropFacts(r, r');
    r'
  }

  /** What the purge step's new state holds, given how it was built. */
  lemma {:induction false} DropFacts(r: Rolling, r': Rolling)
    requires Inv(r) && r.size > 0
    requires r' == r.(dsum := r.dsum - ValueOf(r.data[r.exit]),
                      data := r.data[r.exit := r.data[r.exit].(value := None)],
                      exit := Wrap(r.exit + 1, r.max), size := r.size - 1)
    ensures Inv(r')
    ensures Values(r') == Values(r)[1..] && Marks(r') == Marks(r)[1..]
  {
    DropSlots(r, r');
    var s := LiveSlots(r);
    DropLists(s);
    Oldest(r);
    RSumFront(Values(r));
  }

  /** The live window after a purge step is the old one less its oldest
      slot. */
  lemma {:induction false} DropSlots(r: Rolling, r': Rolling)
    requires Inv(r) && r.size > 0
    requires r'.max == r.max && r'.data == r.data[r.exit := r.data[r.exit].(value := None)]
    requires r'.exit == Wrap(r.exit + 1, r.max) && r'.size == r.size - 1
    ensures LiveSlots(r') == LiveSlots(r)[1..]
  {
    forall i | 0 <= i < r'.size
      ensures LiveSlots(r')[i] == LiveSlots(r)[i + 1]
    {
    }
  }

  lemma {:induction false} DropLists(s: seq<Slot>)
    requires |s| >= 1
    ensures Vals(s[1..]) == Vals(s)[1..] && MarksOf(s[1..]) == MarksOf(s)[1..]
    ensures AllHeld(s) ==> AllHeld(s[1..])
  {
  }

  /** The oldest live value and mark sit at `exit`. */
  lemma {:induction false} Oldest(r: Rolling)
    requires Inv(r) && r.size > 0
    ensures Values(r)[0] == ValueOf(r.data[r.exit]) && Marks(r)[0] == r.data[r.exit].mark
  {
    assert LiveSlots(r)[0] == r.data[r.exit];
  }

  /** Dropping the head of a suffix leaves the next suffix. */
  lemma {:induction false} SuffixStep<T>(all: seq<T>, cur: seq<T>, k: int)
    requires 0 <= k < |all| && cur == all[k..]
    ensures cur[1..] == all[k + 1..] && cur[0] == all[k]
  {
  }

  /** What the purge loop keeps: `r'` is `r` less some oldest values, all
      of them marked below `mark`. */
  ghost predicate PurgedTo(r: Rolling, r': Rolling, mark: int)
    requires Inv(r)
  {
    Inv(r') && r'.max == r.max && r'.size <= r.size &&
    Values(r') == Values(r)[r.size - r'.size..] &&
    Marks(r') == Marks(r)[r.size - r'.size..] &&
    forall i :: 0 <= i < r.size - r'.size ==> Marks(r)[i] < mark
  }

  /** One purge step keeps `PurgedTo`. */
  lemma {:induction false} PurgeStep(r: Rolling, r': Rolling, mark: int)
    requires Inv(r) && PurgedTo(r, r', mark)
    requires r'.size > 0 && r'.data[r'.exit].mark < mark
    ensures PurgedTo(r, DropOldest(r'), mark)
  {
    var k := r.size - r'.size;
    var vs, ms := Values(r'), Marks(r');
    Oldest(r');
    SuffixStep(Values(r), vs, k);
    SuffixStep(Marks(r), ms, k);
    var r2 := DropOldest(r');
    assert r.size - r2.size == k + 1;
    assert Values(r2) == Values(r)[k + 1..] && Marks(r2) == Marks(r)[k + 1..];
    assert Marks(r)[k] < mark;
    forall i | 0 <= i < k + 1
      ensures Marks(r)[i] < mark
    {
    }
  }

  /** Marks stored in time order. */
  predicate Ascending(ms: seq<int>)
  {
    forall i, j :: 0 <= i < j < |ms| ==> ms[i] <= ms[j]
  }

  /** `purge(mark)`: drops values from the oldest end while their mark is
      below `mark`, stopping at the first that is not or when empty. */
  method Purge(r: Rolling, mark: int) returns (r': Rolling)
    requires Inv(r)
    ensures Inv(r') && r'.max == r.max
    ensures r'.size <= r.size
    ensures Values(r') == Values(r)[r.size - r'.size..]
    ensures Marks(r') == Marks(r)[r.size - r'.size..]
    ensures forall i :: 0 <= i < r.size - r'.size ==> Marks(r)[i] < mark
    ensures r'.size > 0 ==> Marks(r')[0] >= mark
    ensures Ascending(Marks(r)) ==> forall i :: 0 <= i < r'.size ==> Marks(r')[i] >= mark
  {
    r' := r;
    assert Values(r) == Values(r)[0..] && Marks(r) == Marks(r)[0..];
    while r'.size > 0 && r'.data[r'.exit].mark < mark
      invariant PurgedTo(r, r', mark)
      decreases r'.size
    {
      PurgeStep(r, r', mark);
      r' := DropOldest(r');
    }
    if r'.size > 0 {
      Oldest(r');
    }
  }

  /** When full, a store replaces the oldest value: the window length stays
      at `max` and the sum moves by the difference. */
  lemma {:induction false} StoreEvicts(r: Rolling, x: real, mark: int)
    requires Inv(r) && r.size == r.max
    ensures Store(r, x, mark).size == r.max
    ensures Store(r, x, mark).dsum == r.dsum - Values(r)[0] + x
  {
    RSumFront(Values(r));
    var r' := Store(r, x, mark);
    assert RSum(Values(r')) == RSum(Values(r)[1..]) + x by {
      assert Values(r')[..|Values(r')| - 1] == Values(r)[1..];
    }
  }

  /** The invariant's single wrap is the source's `(exit + size) % max`. */
  lemma {:induction false} EnterIsMod(r: Rolling)
    requires Inv(r)
    ensures r.enter == (r.exit + r.size) % r.max
  {
    if r.exit + r.size < r.max {
      DivModUnique(r.exit + r.size, r.max, 0, r.enter);
    } else {
      DivModUnique(r.exit + r.size, r.max, 1, r.enter);
    }
  }
}
