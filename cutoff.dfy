/**
 * calculateCutOff: spreading a row's overshoot `delta` over its images.
 *
 * A first pass gives every image the share floor(scaletwidth / len * delta). A
 * remainder loop then hands out the pixels still to cut one at a time, from the
 * first image onward, pass after pass. Within a pass it breaks only once its
 * counter has dropped BELOW zero; it ends with the counter at zero only when a pass
 * finishes exactly. So when the leftover is not a multiple of the row length it
 * cuts one pixel more than `delta`, and otherwise exactly `delta`.
 */
module CutOff {
  import opened Numbers
  import opened Thumbs

  /** First pass: each image's share of the overshoot, in proportion to its scaled width, rounded down. */
  function FirstPass(row: seq<ScaledImage>, len: int, delta: int): (r: seq<int>)
    requires len > 0
    ensures |r| == |row|
  {
    seq(|row|, j requires 0 <= j < |row| => (row[j].scaletwidth * delta) / len)
  }

  /**
   * Each first-pass share is floor(scaletwidth * delta / len): the largest whole
   * number of pixels not above the exact proportional share, and for a row that
   * overshoots (delta > 0) it is never negative when the scaled width is not.
   */
  lemma FirstPassIsFloor(row: seq<ScaledImage>, len: int, delta: int)
    requires len > 0
    ensures var first := FirstPass(row, len, delta);
      forall j :: 0 <= j < |row| ==>
        && first[j] * len <= row[j].scaletwidth * delta < (first[j] + 1) * len
        && (row[j].scaletwidth >= 0 && delta >= 0 ==> first[j] >= 0)
  {
    var first := FirstPass(row, len, delta);
    forall j | 0 <= j < |row|
      ensures first[j] * len <= row[j].scaletwidth * delta < (first[j] + 1) * len
      ensures row[j].scaletwidth >= 0 && delta >= 0 ==> first[j] >= 0
    {
      var x := row[j].scaletwidth * delta;
      assert first[j] == x / len;
      if row[j].scaletwidth >= 0 && delta >= 0 {
        assert x >= 0;
      }
    }
  }

  /** The pixels the first pass leaves uncut (`stillToCutOff` before the remainder loop). */
  function Leftover(row: seq<ScaledImage>, len: int, delta: int): (r: int)
    requires len > 0
    ensures delta >= 0 && (forall j :: 0 <= j < |row| ==> row[j].scaletwidth >= 0) ==> r <= delta
  {
    var first := FirstPass(row, len, delta);
    if delta >= 0 && (forall j :: 0 <= j < |row| ==> row[j].scaletwidth >= 0) then
      FirstPassIsFloor(row, len, delta);
      SumNonNegative(first);
      delta - Sum(first)
    else
      delta - Sum(first)
  }

  /** Every cut raised by `p`, and the first `k` of them by one more. */
  function Spread(first: seq<int>, p: int, k: int): seq<int>
  {
    seq(|first|, j requires 0 <= j < |first| => first[j] + p + (if j < k then 1 else 0))
  }

  /**
   * The remainder loop in closed form: `rest` pixels handed out one per image, from
   * the first image onward, pass after pass, until a pass ends with the counter at
   * zero or the counter drops below zero within a pass.
   * With n images and rest == q * n + k (0 <= k < n) every image gets q extra
   * pixels; when k > 0 the loop goes on into one more pass and stops after the
   * image at index k, so the first k + 1 images get one pixel more.
   */
  function Distribute(first: seq<int>, rest: int): (r: seq<int>)
    requires |first| > 0
    ensures |r| == |first|
  {
    var n := |first|;
    if rest <= 0 then first
    else if rest % n == 0 then Spread(first, rest / n, 0)
    else Spread(first, rest / n, rest % n + 1)
  }

  /**
   * The remainder loop only adds to the first pass, and fairly: an image never gets
   * fewer extra pixels than one after it, and at most one more.
   */
  lemma DistributeFair(first: seq<int>, rest: int)
    requires |first| > 0
    ensures var r := Distribute(first, rest);
      && (forall j :: 0 <= j < |first| ==> r[j] >= first[j])
      && (forall i, j :: 0 <= i < j < |first| ==> r[j] - first[j] <= r[i] - first[i] <= r[j] - first[j] + 1)
  {
  }

  /** The cutoffs calculateCutOff returns. */
  function CutOffs(row: seq<ScaledImage>, len: int, delta: int): (r: seq<int>)
    requires len > 0 && |row| > 0
    ensures |r| == |row|
  {
    Distribute(FirstPass(row, len, delta), Leftover(row, len, delta))
  }

  /**
   * calculateCutOff returns one cutoff per image, none below the image's first-pass
   * share, so none negative for a row that overshoots with non-negative widths.
   */
  lemma CutOffsNotBelowFirstPass(row: seq<ScaledImage>, len: int, delta: int)
    requires len > 0 && |row| > 0
    ensures var cuts, first := CutOffs(row, len, delta), FirstPass(row, len, delta);
      && |cuts| == |row|
      && forall j :: 0 <= j < |row| ==>
        && cuts[j] >= first[j]
        && (row[j].scaletwidth >= 0 && delta >= 0 ==> cuts[j] >= 0)
  {
    DistributeFair(FirstPass(row, len, delta), Leftover(row, len, delta));
    FirstPassIsFloor(row, len, delta);
  }

  /**
   * Unfolding helper for CalculateCutOff: the remainder loop did not run, because the
   * first pass already cut `delta` or more, so the cutoffs are the first pass.
   */
  lemma DistributeNothing(first: seq<int>, rest: int)
    requires |first| > 0 && rest <= 0
    ensures Distribute(first, rest) == Spread(first, 0, 0)
  {
  }

  /** The remainder loop ended with its counter at zero after `passes` full passes. */
  lemma DistributeFullPasses(first: seq<int>, rest: int, passes: nat)
    requires |first| > 0 && rest == passes * |first|
    ensures Distribute(first, rest) == Spread(first, passes, 0)
  {
    if passes == 0 {
      DistributeNothing(first, rest);
    } else {
      DivModUnique(rest, |first|, passes, 0);
    }
  }

  /** The remainder loop broke out of a pass at image i, after `passes` full passes. */
  lemma DistributeBreak(first: seq<int>, rest: int, passes: nat, i: nat)
    requires 0 < i < |first| && rest == passes * |first| + i
    ensures Distribute(first, rest) == Spread(first, passes, i + 1)
  {
    DivModUnique(rest, |first|, passes, i);
  }

  /** calculateCutOff(len, delta, items), with its two loops over the local list of cutoffs. */
  method CalculateCutOff(len: int, delta: int, items: seq<ScaledImage>) returns (cuts: seq<int>)
    requires len > 0 && |items| > 0
    ensures cuts == CutOffs(items, len, delta)
  {
    var n := |items|;
    ghost var first := FirstPass(items, len, delta);
    var cutoff: seq<int> := [];
    var cutsum := 0;
    for i := 0 to n
      invariant cutoff == first[..i]
      invariant cutsum == Sum(first[..i])
    {
      cutoff := cutoff + [(items[i].scaletwidth * delta) / len];
      cutsum := cutsum + cutoff[i];
      assert first[..i + 1][..i] == first[..i];
    }
    assert first[..n] == first;

    var stillToCutOff := delta - cutsum;
    ghost var rest := stillToCutOff;
    assert rest == Leftover(items, len, delta);
    // full passes made so far, the pixels they handed out, and how many images the
    // pass that broke off reached
    ghost var passes, handed, reached := 0, 0, 0;
    ghost var broke := false;
    while stillToCutOff > 0
      invariant |cutoff| == n
      invariant passes >= 0 && handed == passes * n
      invariant !broke ==> stillToCutOff == rest - handed && reached == 0
      invariant !broke && passes > 0 ==> stillToCutOff >= 0
      invariant broke ==> stillToCutOff == -1 && 0 < rest - handed < n && reached == rest - handed + 1
      invariant forall j :: 0 <= j < n ==> cutoff[j] == first[j] + passes + (if j < reached then 1 else 0)
      decreases stillToCutOff
    {
      for i := 0 to n
        invariant |cutoff| == n
        invariant !broke && reached == 0
        invariant rest > handed
        invariant stillToCutOff == rest - handed - i >= 0
        invariant forall j :: 0 <= j < n ==> cutoff[j] == first[j] + passes + (if j < i then 1 else 0)
      {
        cutoff := cutoff[i := cutoff[i] + 1];
        stillToCutOff := stillToCutOff - 1;
        if stillToCutOff < 0 {
          // the counter went below zero at the image after the last pixel owed
          broke, reached := true, i + 1;
          break;
        }
      }
      if !broke {
        passes, handed := passes + 1, handed + n;
      }
    }

    assert cutoff == Spread(first, passes, reached);
    if broke {
      DistributeBreak(first, rest, passes, rest - handed);
    } else if passes == 0 {
      DistributeNothing(first, rest);
    } else {
      DistributeFullPasses(first, rest, passes);
    }
    cuts := cutoff;
  }

  /** Raising every cut by p and the first k by one more adds p * n + k to the total. */
  lemma {:induction false} SumSpread(first: seq<int>, p: int, k: int)
    requires 0 <= k <= |first|
    ensures Sum(Spread(first, p, k)) == Sum(first) + p * |first| + k
    decreases |first|
  {
    var n := |first|;
    if n > 0 {
      var k' := if k < n then k else n - 1;
      var spread, init := Spread(first, p, k), Spread(first[..n - 1], p, k');
      var last := first[n - 1] + p + (if n - 1 < k then 1 else 0);
      assert spread[..n - 1] == init;
      assert Sum(spread) == Sum(init) + last;
      SumSpread(first[..n - 1], p, k');
      assert Sum(first) == Sum(first[..n - 1]) + first[n - 1];
      assert k' + (if n - 1 < k then 1 else 0) == k;
      MulAdd(p, n - 1, 1);
    }
  }

  /** After `passes` full passes and no more, the remainder loop has added exactly `rest`. */
  lemma SumDistributeFull(first: seq<int>, rest: int, passes: nat)
    requires |first| > 0 && rest == passes * |first|
    ensures Sum(Distribute(first, rest)) == Sum(first) + rest
  {
    DistributeFullPasses(first, rest, passes);
    SumSpread(first, passes, 0);
  }

  /** When the remainder loop broke off a pass, it has added `rest` and one pixel more. */
  lemma SumDistributeBreak(first: seq<int>, rest: int, passes: nat, i: nat)
    requires 0 < i < |first| && rest == passes * |first| + i
    ensures Sum(Distribute(first, rest)) == Sum(first) + rest + 1
  {
    DistributeBreak(first, rest, passes, i);
    SumSpread(first, passes, i + 1);
  }

  /**
   * What the remainder loop adds to the first pass: exactly `rest` when that is a
   * multiple of the row length (zero included), and one pixel more otherwise.
   */
  lemma DistributeTotal(first: seq<int>, rest: int)
    requires |first| > 0 && rest >= 0
    ensures Sum(Distribute(first, rest)) == Sum(first) + rest + (if rest % |first| == 0 then 0 else 1)
  {
    var n := |first|;
    var p, k := rest / n, rest % n;
    assert rest == p * n + k && p >= 0;
    if k == 0 {
      SumDistributeFull(first, rest, p);
    } else {
      SumDistributeBreak(first, rest, p, k);
    }
  }

  /**
   * Scaled by `len`, the first-pass shares add up to no more than `delta` times the
   * accumulated row length, because every share is rounded down and margins are not negative.
   */
  lemma {:induction false} FirstPassScaledBound(row: seq<ScaledImage>, len: int, delta: int, margin: int)
    requires len > 0 && delta >= 0 && margin >= 0
    ensures len * Sum(FirstPass(row, len, delta)) <= delta * RowLen(row, margin)
    decreases |row|
  {
    var n := |row|;
    if n > 0 {
      var first := FirstPass(row, len, delta);
      assert first[..n - 1] == FirstPass(row[..n - 1], len, delta);
      FirstPassScaledBound(row[..n - 1], len, delta, margin);
      FirstPassIsFloor(row, len, delta);
      var s, f := row[n - 1].scaletwidth, first[n - 1];
      assert Sum(first) == Sum(first[..n - 1]) + f;
      MulAdd(len, Sum(first[..n - 1]), f);
      assert RowLen(row, margin) == RowLen(row[..n - 1], margin) + s + 2 * margin;
      MulAdd(delta, RowLen(row[..n - 1], margin) + s, 2 * margin);
      MulAdd(delta, RowLen(row[..n - 1], margin), s);
      assert delta * (2 * margin) >= 0;
    }
  }

  /**
   * When `len` is the row's accumulated length and margins are not negative, the
   * first pass never cuts more than `delta`: the remainder loop starts from a
   * leftover of zero or more.
   */
  lemma FirstPassWithinDelta(row: seq<ScaledImage>, len: int, delta: int, margin: int)
    requires margin >= 0 && delta >= 0 && len > 0 && len == RowLen(row, margin)
    ensures Leftover(row, len, delta) >= 0
  {
    FirstPassScaledBound(row, len, delta, margin);
  }

  /**
   * The total calculateCutOff cuts: `delta` exactly when the leftover of the first
   * pass is a multiple of the row length (zero included), `delta + 1` otherwise.
   */
  lemma TotalCut(row: seq<ScaledImage>, len: int, delta: int)
    requires len > 0 && |row| > 0 && Leftover(row, len, delta) >= 0
    ensures Sum(CutOffs(row, len, delta)) == delta + (if Leftover(row, len, delta) % |row| == 0 then 0 else 1)
    ensures delta <= Sum(CutOffs(row, len, delta)) <= delta + 1
  {
    DistributeTotal(FirstPass(row, len, delta), Leftover(row, len, delta));
  }

  /** Three 100-pixel images, no margin, container 250: 16 each, then one pixel to all three. */
  lemma OneExtraPixelExample()
    ensures var row := [ScaledImage(Image("a", 100, 1), 100), ScaledImage(Image("b", 100, 1), 100), ScaledImage(Image("c", 100, 1), 100)];
            FirstPass(row, 300, 50) == [16, 16, 16] && CutOffs(row, 300, 50) == [17, 17, 17]
  {
    var row := [ScaledImage(Image("a", 100, 1), 100), ScaledImage(Image("b", 100, 1), 100), ScaledImage(Image("c", 100, 1), 100)];
    assert FirstPass(row, 300, 50) == [16, 16, 16];
    assert [16, 16, 16][..2] == [16, 16] && [16, 16][..1] == [16] && [16][..0] == [];
    assert Distribute([16, 16, 16], 2) == Spread([16, 16, 16], 0, 3) == [17, 17, 17];
  }
}
