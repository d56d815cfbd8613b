/** The heights of a block locator, after src/chains.c: dense from the tip, then in doubling steps to the
    genesis block. */
module Locator {
  import opened Powers

  const DENSE := 10

  function Log2(n: nat): (k: nat)
    requires n > 0
    ensures Pow2(k) <= n < Pow2(k + 1)
  {
    if n == 1 then 0 else 1 + Log2(n / 2)
  }

  function NextStep(i: nat, step: nat): nat {
    if i >= DENSE then 2 * step else step
  }

  function Lower(height: nat, step: nat): nat {
    if height < step then 0 else height - step
  }

  /** The heights that are written from index `i` on, if there is room for `room` more. */
  function Heights(height: nat, i: nat, step: nat, room: nat): seq<nat>
    decreases room
  {
    if room == 0 then []
    else if height == 0 then [0]
    else [height] + Heights(Lower(height, NextStep(i, step)), i + 1, NextStep(i, step), room - 1)
  }

  lemma HeightsStep(done: seq<nat>, height: nat, i: nat, step: nat, room: nat)
    ensures var s := done + Heights(height, i, step, room);
      if room == 0 then s == done
      else if height == 0 then s == done + [height]
      else s == done + [height] + Heights(Lower(height, NextStep(i, step)), i + 1, NextStep(i, step), room - 1)
  {
    if room > 0 && height > 0 {
      Regroup(done, [height], Heights(Lower(height, NextStep(i, step)), i + 1, NextStep(i, step), room - 1));
    }
  }

  lemma Regroup(a: seq<nat>, b: seq<nat>, c: seq<nat>)
    ensures a + (b + c) == a + b + c
  {
  }

  /** How far below the tip the k-th entry lies. */
  function Offset(k: nat): nat {
    if k <= DENSE then k else Pow2(k - 9) + 8
  }

  /** The step taken to reach index `i`. */
  function StepAt(i: nat): (s: nat)
    ensures s > 0
  {
    if i <= DENSE then 1 else Pow2(i - DENSE)
  }

  lemma OffsetGrows(k: nat)
    ensures Offset(k + 1) == Offset(k) + NextStep(k, StepAt(k))
    ensures NextStep(k, StepAt(k)) == StepAt(k + 1)
  {
    if k > DENSE {
      assert Pow2(k - 8) == 2 * Pow2(k - 9) && Pow2(k - 9) == 2 * Pow2(k - 10);
    } else if k == DENSE {
      assert Pow2(1) == 2 * Pow2(0) && Pow2(2) == 2 * Pow2(1);
    }
  }

  /** Entry k of the locator of a chain with tip `tip` lies Offset(k) below the tip, clamped at the genesis
      block, which ends it. */
  lemma {:induction false} HeightAt(tip: nat, i: nat, room: nat, k: nat)
    requires k < |Heights(Lower(tip, Offset(i)), i, StepAt(i), room)|
    ensures Heights(Lower(tip, Offset(i)), i, StepAt(i), room)[k] == Lower(tip, Offset(i + k))
    ensures k > 0 ==> Offset(i + k - 1) < tip
    decreases room
  {
    var h := Lower(tip, Offset(i));
    if k > 0 {
      OffsetGrows(i);
      assert h > 0 && Offset(i) < tip;
      assert Lower(h, StepAt(i + 1)) == Lower(tip, Offset(i + 1));
      HeightAt(tip, i + 1, room - 1, k - 1);
    }
  }

  /** It ends with the genesis block, unless there is no room left. */
  lemma {:induction false} Ending(height: nat, i: nat, step: nat, room: nat)
    requires step > 0
    ensures var s := Heights(height, i, step, room);
      && |s| <= room
      && (|s| < room ==> s != [] && s[|s| - 1] == 0)
      && (height > 0 && room > 0 ==> s[0] == height)
      && forall k :: 0 <= k < |s| - 1 ==> s[k] > s[k + 1]
    decreases room
  {
    if room > 0 && height > 0 {
      Ending(Lower(height, NextStep(i, step)), i + 1, NextStep(i, step), room - 1);
      var t := Heights(Lower(height, NextStep(i, step)), i + 1, NextStep(i, step), room - 1);
      var s := Heights(height, i, step, room);
      assert s == [height] + t;
      FirstHeight(Lower(height, NextStep(i, step)), i + 1, NextStep(i, step), room - 1);
      forall k | 0 <= k < |s| - 1 ensures s[k] > s[k + 1] {
        assert s[k + 1] == t[k];
        if k > 0 { assert s[k] == t[k - 1]; }
      }
    }
  }

  lemma FirstHeight(height: nat, i: nat, step: nat, room: nat)
    ensures room > 0 ==> Heights(height, i, step, room) != [] && Heights(height, i, step, room)[0] == height
  {
  }

  /** The whole locator. */
  function Known(tip: nat, room: nat): seq<nat> {
    Heights(tip, 0, 1, room)
  }

  /** The locator: where each entry lies, that it is strictly decreasing from the tip, dense at first, and with gaps
      that double, and that it has at most 12 + log2(height) entries. */
  lemma LocatorShape(tip: nat, room: nat)
    requires tip > 0 && room > 0
    ensures var s := Known(tip, room);
      && |s| <= room && s[0] == tip
      && (|s| < room ==> s[|s| - 1] == 0)
      && (forall k :: 0 <= k < |s| ==> s[k] == Lower(tip, Offset(k)))
      && (forall k :: 0 <= k < |s| - 1 ==> s[k] > s[k + 1])
      && |s| <= 12 + Log2(tip)
  {
    hide Heights, Log2;
    var s := Known(tip, room);
    Ending(tip, 0, 1, room);
    assert Lower(tip, Offset(0)) == tip;
    forall k | 0 <= k < |s| ensures s[k] == Lower(tip, Offset(k)) {
      HeightAt(tip, 0, room, k);
    }
    HeightAt(tip, 0, room, |s| - 1);
    LengthBound(tip, |s|);
  }

  /** If the entry before the last still lies above the genesis block, there are not too many entries. */
  lemma LengthBound(tip: nat, count: nat)
    requires tip > 0 && (count > 1 ==> Offset(count - 2) < tip)
    ensures count <= 12 + Log2(tip)
  {
    if count > 12 + Log2(tip) {
      PowMonotone(Log2(tip) + 1, count - 11);
    }
  }

  /** With a limit of 64 or more nothing is cut off below height 2^31, and the step fits in a signed 32-bit number. */
  lemma LimitSuffices(tip: nat, room: nat)
    requires 0 < tip < 0x8000_0000 && room >= 64
    ensures var s := Known(tip, room);
      |s| < 64 && s[|s| - 1] == 0 && forall k :: 0 < k < |s| ==> StepAt(k) < 0x8000_0000
  {
    var s := Known(tip, room);
    LocatorShape(tip, room);
    SmallLog(tip);
    forall k | 0 < k < |s| ensures StepAt(k) < 0x8000_0000 {
      HeightAt(tip, 0, room, k);
      if k > 40 {
        PowMonotone(31, k - 10);
        assert Pow2(31) == 0x8000_0000 by { PowValues(); }
      } else {
        PowMonotone(if k < 10 then 0 else k - 10, 30);
        PowValues();
      }
    }
  }

  lemma {:induction false} OffsetMonotone(j: nat, k: nat)
    requires j <= k
    ensures Offset(j) <= Offset(k)
  {
    if j < k {
      OffsetMonotone(j, k - 1);
      OffsetGrows(k - 1);
    }
  }

  /** The genesis block is written exactly when the last entry that there is room for would lie at or below it. */
  lemma GenesisFits(tip: nat, room: nat)
    requires room > 0
    ensures var s := Known(tip, room);
      s != [] && (s[|s| - 1] == 0 <==> Offset(room - 1) >= tip)
  {
    hide Heights, Log2, Offset;
    FirstHeight(tip, 0, 1, room);
    if tip == 0 {
      NoHeight(room);
    } else {
      var s := Known(tip, room);
      LocatorShape(tip, room);
      OffsetMonotone(|s| - 1, room - 1);
    }
  }

  lemma NoHeight(room: nat)
    requires room > 0
    ensures Known(0, room) == [0]
  {
  }

  /** Room for two at height five: the genesis block is cut off. */
  lemma CutOffExample()
    ensures Known(5, 2) == [5, 4] && Offset(2 - 1) < 5
  {
    assert Heights(5, 0, 1, 2) == [5] + Heights(4, 1, 1, 1);
    assert Heights(4, 1, 1, 1) == [4] + Heights(3, 2, 1, 0);
  }

  lemma SmallLog(n: nat)
    requires 0 < n < 0x8000_0000
    ensures Log2(n) <= 30
  {
    if Log2(n) > 30 {
      PowValues();
      PowMonotone(31, Log2(n));
    }
  }
}
