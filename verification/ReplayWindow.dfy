/** internal/authentication/window.go: the 64-bit replay bitmap.

    The bitmap is a bounded integer. Shifts follow the Go specification, which
    defines `x << n` as n shifts by one; that a shift by 64 or more clears the word
    is therefore proved (ShlBit), not assumed. */
module ReplayWindow {
  import opened Primitives

  const WINDOW_SIZE := 32

  // ---- 64-bit words ----

  function Shl(w: u64, n: nat): u64
    decreases n
  {
    if n == 0 then w else Shl((2 * w) % 0x1_0000_0000_0000_0000, n - 1)
  }

  function Shr(w: u64, n: nat): u64
    decreases n
  {
    if n == 0 then w else Shr(w / 2, n - 1)
  }

  /** The bitwise or of the n low-order bits of a and b. */
  function OrBits(a: nat, b: nat, n: nat): (r: nat)
    ensures r < Pow2(n)
  {
    if n == 0 then 0
    else 2 * OrBits(a / 2, b / 2, n - 1) + (if a % 2 == 1 || b % 2 == 1 then 1 else 0)
  }

  function Or(a: u64, b: u64): u64 {
    Pow2Values();
    OrBits(a, b, 64)
  }

  ghost function Pow2(k: nat): nat {
    if k == 0 then 1 else 2 * Pow2(k - 1)
  }

  lemma Pow2Values()
    ensures Pow2(63) == 0x8000_0000_0000_0000
    ensures Pow2(64) == 0x1_0000_0000_0000_0000
  {
    assert Pow2(8) == 0x100;
    assert Pow2(16) == 0x10000;
    assert Pow2(24) == 0x1000000;
    assert Pow2(32) == 0x100000000;
    assert Pow2(40) == 0x10000000000;
    assert Pow2(48) == 0x1000000000000;
    assert Pow2(56) == 0x100000000000000;
  }

  /** Whether bit i of w is set, as the source tests it: w >> i & 1 == 1. */
  predicate Bit(w: u64, i: nat) {
    Shr(w, i) % 2 == 1
  }

  // ---- what the word operations do to single bits ----

  lemma {:induction false} HighBitIrrelevant(w: u64, k: nat, i: nat)
    requires i < k && w + Pow2(k) < 0x1_0000_0000_0000_0000
    ensures Bit(w + Pow2(k), i) == Bit(w, i)
    decreases i
  {
    assert Pow2(k) == 2 * Pow2(k - 1);
    if i > 0 {
      HighBitIrrelevant(w / 2, k - 1, i - 1);
    }
  }

  lemma DoubleBit(w: u64, i: nat)
    requires i < 64
    ensures Bit((2 * w) % 0x1_0000_0000_0000_0000, i) == (i > 0 && Bit(w, i - 1))
  {
    if i > 0 {
      Pow2Values();
      if w >= 0x8000_0000_0000_0000 {
        HighBitIrrelevant(w - 0x8000_0000_0000_0000, 63, i - 1);
      }
    }
  }

  lemma {:induction false} ShlBit(w: u64, n: nat, i: nat)
    requires i < 64
    ensures Bit(Shl(w, n), i) == (i >= n && Bit(w, i - n))
    decreases n
  {
    if n > 0 {
      ShlBit((2 * w) % 0x1_0000_0000_0000_0000, n - 1, i);
      if i >= n - 1 {
        DoubleBit(w, i - (n - 1));
      }
    }
  }

  lemma {:induction false} OrBitsBit(a: u64, b: u64, n: nat, i: nat)
    requires i < n <= 64
    ensures OrBits(a, b, n) < 0x1_0000_0000_0000_0000
    ensures Bit(OrBits(a, b, n), i) == (Bit(a, i) || Bit(b, i))
    decreases n
  {
    Pow2Monotone(n, 64);
    Pow2Values();
    if i > 0 {
      OrBitsBit(a / 2, b / 2, n - 1, i - 1);
    }
  }

  lemma {:induction false} Pow2Monotone(m: nat, n: nat)
    requires m <= n
    ensures Pow2(m) <= Pow2(n)
  {
    if m < n {
      Pow2Monotone(m, n - 1);
    }
  }

  lemma {:induction false} SmallBit(w: u64, i: nat)
    requires w <= 1
    ensures Bit(w, i) == (w == 1 && i == 0)
  {
    if i > 0 {
      SmallBit(0, i - 1);
    }
  }

  /** Or-ing in 1 << k sets bit k and nothing else; for k >= 64 it sets nothing. */
  lemma OrOneBit(w: u64, k: nat, i: nat)
    requires i < 64
    ensures Bit(Or(w, Shl(1, k)), i) == (i == k || Bit(w, i))
  {
    OrBitsBit(w, Shl(1, k), 64, i);
    ShlBit(1, k, i);
    if i >= k {
      SmallBit(1, i - k);
    }
  }

  // ---- updateSlidingWindow ----

  /** The (counter, window, ok) triple that updateSlidingWindow returns. */
  function UpdateSlidingWindow(counter: u32, window: u64, newCounter: u32): (u32, u64, bool) {
    if counter == newCounter then
      (counter, window, false)
    else if newCounter < counter then
      var age := counter - newCounter;
      if age > WINDOW_SIZE then (counter, window, false)
      else if Bit(window, age - 1) then (counter, window, false)
      else (counter, Or(window, Shl(1, age - 1)), true)
    else
      var shiftCount := newCounter - counter;
      (newCounter, Or(Shl(window, shiftCount), Shl(1, shiftCount - 1)), true)
  }

  /** The bitmap describes the set `seen` of used counters: `counter` is the largest,
      and bit i stands for counter - 1 - i. Bits that would stand for a negative
      counter are unconstrained: they may hold anything. */
  ghost predicate Tracks(counter: u32, window: u64, seen: set<u32>) {
    && counter in seen
    && (forall c | c in seen :: c <= counter)
    && (forall i: nat | i < 64 && i < counter :: Bit(window, i) <==> (counter - 1 - i) in seen)
  }

  /** The rule the bitmap has to implement: never used before, and not more than
      WINDOW_SIZE below any counter already used. */
  ghost predicate Fresh(seen: set<u32>, c: u32) {
    c !in seen && forall x | x in seen :: x <= c + WINDOW_SIZE
  }

  lemma UpdateKeepsTracking(counter: u32, window: u64, seen: set<u32>, c: u32)
    requires Tracks(counter, window, seen)
    ensures var (counter', window', ok) := UpdateSlidingWindow(counter, window, c);
            && ok == Fresh(seen, c)
            && Tracks(counter', window', if ok then seen + {c} else seen)
            && (!ok ==> counter' == counter && window' == window)
  {
    var (counter', window', ok) := UpdateSlidingWindow(counter, window, c);
    if ok {
      forall i: nat | i < 64 && i < counter'
        ensures Bit(window', i) <==> (counter' - 1 - i) in seen + {c}
      {
        if c < counter {
          OrOneBit(window, counter - c - 1, i);
        } else {
          var s := c - counter;
          OrOneBit(Shl(window, s), s - 1, i);
          ShlBit(window, s, i);
        }
      }
    }
  }

  // ---- type SlidingWindow ----

  datatype WindowState = WindowState(history: u64, counter: u32, used: bool)

  const UNUSED_WINDOW := WindowState(0, 0, false)

  function Update(w: WindowState, c: u32): (WindowState, bool) {
    if !w.used then (w.(used := true, counter := c), true)
    else
      var (counter, history, ok) := UpdateSlidingWindow(w.counter, w.history, c);
      (WindowState(history, counter, true), ok)
  }

  /** The state a window reaches, and the counters it accepts, when it is fed cs. */
  function StateAfter(cs: seq<u32>): WindowState {
    if cs == [] then UNUSED_WINDOW else Update(StateAfter(cs[..|cs| - 1]), cs[|cs| - 1]).0
  }

  /** Reference definition of the counters accepted out of cs; it keeps the whole set. */
  ghost function AcceptedFrom(cs: seq<u32>): set<u32> {
    if cs == [] then {}
    else
      var accepted := AcceptedFrom(cs[..|cs| - 1]);
      var c := cs[|cs| - 1];
      if Fresh(accepted, c) then accepted + {c} else accepted
  }

  ghost predicate Represents(w: WindowState, accepted: set<u32>) {
    if w.used then Tracks(w.counter, w.history, accepted) else w.history == 0 && accepted == {}
  }

  lemma UpdateRepresents(w: WindowState, accepted: set<u32>, c: u32)
    requires Represents(w, accepted)
    ensures var (w', ok) := Update(w, c);
            && ok == Fresh(accepted, c)
            && Represents(w', if ok then accepted + {c} else accepted)
            && (!ok ==> w' == w)
  {
    if w.used {
      UpdateKeepsTracking(w.counter, w.history, accepted, c);
    } else {
      forall i: nat | i < 64 ensures !Bit(0, i) {
        SmallBit(0, i);
      }
    }
  }

  /** Window exactness: after any sequence of calls, the bitmap's next decision is the
      one the full set of accepted counters gives. */
  lemma {:induction false} WindowExact(cs: seq<u32>, c: u32)
    ensures Represents(StateAfter(cs), AcceptedFrom(cs))
    ensures Update(StateAfter(cs), c).1 == Fresh(AcceptedFrom(cs), c)
  {
    if cs != [] {
      WindowExact(cs[..|cs| - 1], cs[|cs| - 1]);
      UpdateRepresents(StateAfter(cs[..|cs| - 1]), AcceptedFrom(cs[..|cs| - 1]), cs[|cs| - 1]);
    }
    UpdateRepresents(StateAfter(cs), AcceptedFrom(cs), c);
  }

  /** No counter is accepted twice in one run, however the calls are ordered. */
  lemma {:induction false} AcceptedOnce(cs: seq<u32>, i: nat, j: nat)
    requires i < j < |cs|
    requires Update(StateAfter(cs[..i]), cs[i]).1 && Update(StateAfter(cs[..j]), cs[j]).1
    ensures cs[i] != cs[j]
  {
    WindowExact(cs[..i], cs[i]);
    WindowExact(cs[..j], cs[j]);
    AcceptedGrows(cs, i + 1, j);
    assert cs[..i + 1][..i] == cs[..i];
  }

  lemma {:induction false} AcceptedGrows(cs: seq<u32>, i: nat, j: nat)
    requires i <= j <= |cs|
    ensures AcceptedFrom(cs[..i]) <= AcceptedFrom(cs[..j])
  {
    if i < j {
      AcceptedGrows(cs, i, j - 1);
      assert cs[..j][..j - 1] == cs[..j - 1];
    }
  }

  /** Two bitmaps agree on every bit that stands for a non-negative counter. */
  ghost predicate AgreeBelow(counter: u32, a: u64, b: u64) {
    forall i: nat | i < 64 && i < counter :: Bit(a, i) == Bit(b, i)
  }

  /** The counters and decisions of a run of updateSlidingWindow. */
  function Decisions(counter: u32, window: u64, cs: seq<u32>): seq<bool>
    decreases |cs|
  {
    if cs == [] then []
    else
      var (counter', window', ok) := UpdateSlidingWindow(counter, window, cs[0]);
      [ok] + Decisions(counter', window', cs[1..])
  }

  lemma StaleBitsStep(counter: u32, a: u64, b: u64, c: u32)
    requires AgreeBelow(counter, a, b)
    ensures var (counterA, a', okA) := UpdateSlidingWindow(counter, a, c);
            var (counterB, b', okB) := UpdateSlidingWindow(counter, b, c);
            okA == okB && counterA == counterB && AgreeBelow(counterA, a', b')
  {
    var (counter', a', _) := UpdateSlidingWindow(counter, a, c);
    var (_, b', _) := UpdateSlidingWindow(counter, b, c);
    forall i: nat | i < 64 && i < counter' ensures Bit(a', i) == Bit(b', i) {
      if c < counter {
        OrOneBit(a, counter - c - 1, i);
        OrOneBit(b, counter - c - 1, i);
      } else if c > counter {
        var s := c - counter;
        OrOneBit(Shl(a, s), s - 1, i);
        OrOneBit(Shl(b, s), s - 1, i);
        ShlBit(a, s, i);
        ShlBit(b, s, i);
      }
    }
  }

  /** Bits beyond the counter never influence a decision, now or later. The Verifier
      relies on this when it starts an epoch at counter 0 without clearing the window,
      because AgreeBelow(0, a, b) holds of any two bitmaps. */
  lemma {:induction false} StaleBitsIrrelevant(counter: u32, a: u64, b: u64, cs: seq<u32>)
    requires AgreeBelow(counter, a, b)
    ensures Decisions(counter, a, cs) == Decisions(counter, b, cs)
    decreases |cs|
  {
    if cs != [] {
      StaleBitsStep(counter, a, b, cs[0]);
      var (counter', a', _) := UpdateSlidingWindow(counter, a, cs[0]);
      var (_, b', _) := UpdateSlidingWindow(counter, b, cs[0]);
      StaleBitsIrrelevant(counter', a', b', cs[1..]);
    }
  }

  /** The struct as the source keeps it, with a ghost record of what it has accepted. */
  class SlidingWindow {
    var history: u64
    var counter: u32
    var used: bool
    ghost var accepted: set<u32>
    ghost var owner: object?          // the struct the window is embedded in

    ghost predicate Valid()
      reads this
    {
      Represents(WindowState(history, counter, used), accepted)
    }

    constructor ()
      ensures Valid() && accepted == {}
    {
      history, counter, used := 0, 0, false;
      accepted, owner := {}, null;
    }

    method Update(c: u32) returns (ok: bool)
      requires Valid()
      modifies this
      ensures Valid() && owner == old(owner)
      ensures ok == Fresh(old(accepted), c)
      ensures accepted == if ok then old(accepted) + {c} else old(accepted)
      ensures !ok ==> history == old(history) && counter == old(counter) && used == old(used)
    {
      UpdateRepresents(WindowState(history, counter, used), accepted, c);
      if !used {
        used := true;
        counter := c;
        accepted := {c};
        return true;
      }
      var r := UpdateSlidingWindow(counter, history, c);
      counter, history, ok := r.0, r.1, r.2;
      if ok {
        accepted := accepted + {c};
      }
    }
  }
}
