/**
  Stage 2a, skip_limited_histogram: clip every bin at ABSOLUTE_CONTRAST_LIMIT
  and hand the surplus back evenly, bonus_contrast = extra_contrast / 256 to
  every bin, but only when extra_contrast > 256. The remainder is lost;
  skip_equalised_histogram recomputes it as lost_contrast.
 */
module Limiter {

  import opened Common

  /** The value a bin is copied with before redistribution. */
  function Clip(cfg: Config, count: nat): nat {
    if count > cfg.contrastLimit then cfg.contrastLimit else count
  }

  /** What a bin adds to extra_contrast. */
  function Excess(cfg: Config, count: nat): nat {
    if count > cfg.contrastLimit then count - cfg.contrastLimit else 0
  }

  /** extra_contrast: the total clipped off a histogram. */
  function ExtraContrast(cfg: Config, h: seq<nat>): nat {
    Sum(seq(|h|, i requires 0 <= i < |h| => Excess(cfg, h[i])))
  }

  /** bonus_contrast: what every bin gets back; zero unless extra_contrast > PIXEL_RANGE. */
  function Bonus(cfg: Config, h: seq<nat>): nat {
    var extra := ExtraContrast(cfg, h);
    if extra > PixelRange then extra / PixelRange else 0
  }

  /** lost_contrast, recomputed from the original histogram by skip_equalised_histogram. */
  function LostContrast(cfg: Config, h: seq<nat>): nat {
    ExtraContrast(cfg, h) % PixelRange
  }

  /** The limited histogram of one tile. */
  function LimitedHistogram(cfg: Config, h: seq<nat>): (l: seq<nat>)
    requires IsHistogram(h)
    ensures IsHistogram(l)
  {
    var bonus := Bonus(cfg, h);
    seq(PixelRange, i requires 0 <= i < PixelRange => Clip(cfg, h[i]) + bonus)
  }

  /** skip_limited_histogram over every tile. */
  function LimitedHistograms(cfg: Config, hs: seq<seq<nat>>): (ls: seq<seq<nat>>)
    requires AllHistograms(hs)
    ensures |ls| == |hs| && AllHistograms(ls)
  {
    seq(|hs|, t requires 0 <= t < |hs| => LimitedHistogram(cfg, hs[t]))
  }

  /** Every bin is split into the part kept and the part clipped off. */
  lemma ClipPlusExcess(cfg: Config, h: seq<nat>)
    ensures Sum(seq(|h|, i requires 0 <= i < |h| => Clip(cfg, h[i]))) + ExtraContrast(cfg, h) == Sum(h)
  {
    var kept := seq(|h|, i requires 0 <= i < |h| => Clip(cfg, h[i]));
    var cut := seq(|h|, i requires 0 <= i < |h| => Excess(cfg, h[i]));
    SumAdd(kept, cut, h);
  }

  /** The handed-back mass never exceeds the clipped mass, and is zero unless extra_contrast > 256. */
  lemma BonusBounds(cfg: Config, h: seq<nat>)
    ensures PixelRange * Bonus(cfg, h) <= ExtraContrast(cfg, h)
    ensures ExtraContrast(cfg, h) <= PixelRange ==> Bonus(cfg, h) == 0
    ensures ExtraContrast(cfg, h) > PixelRange
        ==> ExtraContrast(cfg, h) - PixelRange * Bonus(cfg, h) == LostContrast(cfg, h)
  {
  }

  /** Limiter shape: a bin over the limit becomes limit + bonus, any other bin keeps its count plus
      the bonus, so no bin exceeds ABSOLUTE_CONTRAST_LIMIT + bonus. */
  lemma LimiterShape(cfg: Config, h: seq<nat>)
    requires IsHistogram(h)
    ensures forall i :: 0 <= i < PixelRange ==> LimitedHistogram(cfg, h)[i] <= cfg.contrastLimit + Bonus(cfg, h)
    ensures forall i :: 0 <= i < PixelRange && h[i] > cfg.contrastLimit
              ==> LimitedHistogram(cfg, h)[i] == cfg.contrastLimit + Bonus(cfg, h)
    ensures forall i :: 0 <= i < PixelRange && h[i] <= cfg.contrastLimit
              ==> LimitedHistogram(cfg, h)[i] == h[i] + Bonus(cfg, h)
  {
  }

  /** No-op limiting: when no bin exceeds the limit nothing is clipped and the limited
      histogram is the original one. */
  lemma LimiterNoOp(cfg: Config, h: seq<nat>)
    requires IsHistogram(h)
    requires forall i :: 0 <= i < PixelRange ==> h[i] <= cfg.contrastLimit
    ensures ExtraContrast(cfg, h) == 0
    ensures LimitedHistogram(cfg, h) == h
  {
    var cut := seq(|h|, i requires 0 <= i < |h| => Excess(cfg, h[i]));
    SumZero(cut);
  }

  /** Once redistribution happens, every bin that was at or over the limit ends above it:
      the limited histogram is not bounded by ABSOLUTE_CONTRAST_LIMIT. */
  lemma LimiterMayExceedLimit(cfg: Config, h: seq<nat>)
    requires IsHistogram(h)
    requires ExtraContrast(cfg, h) > PixelRange
    ensures forall i :: 0 <= i < PixelRange && h[i] >= cfg.contrastLimit
              ==> LimitedHistogram(cfg, h)[i] > cfg.contrastLimit
  {
  }

  /** Limiter mass: sum(limited) = sum(original) - extra_contrast + 256 * bonus_contrast. */
  lemma LimiterMass(cfg: Config, h: seq<nat>)
    requires IsHistogram(h)
    ensures Sum(LimitedHistogram(cfg, h)) + ExtraContrast(cfg, h)
         == Sum(h) + PixelRange * Bonus(cfg, h)
    ensures Sum(LimitedHistogram(cfg, h)) <= Sum(h)
  {
    var l := LimitedHistogram(cfg, h);
    var kept := seq(|h|, i requires 0 <= i < |h| => Clip(cfg, h[i]));
    var bonus := seq(|h|, i requires 0 <= i < |h| => Bonus(cfg, h));
    SumAdd(kept, bonus, l);
    SumConst(bonus, Bonus(cfg, h));
    ClipPlusExcess(cfg, h);
    BonusBounds(cfg, h);
  }

  /** What the limiter actually drops is extra % 256 when it redistributes and all of extra
      otherwise, so lost_contrast as recomputed later matches it exactly when extra != 256. */
  lemma LimiterLoss(cfg: Config, h: seq<nat>)
    requires IsHistogram(h)
    ensures Sum(h) - Sum(LimitedHistogram(cfg, h))
         == if ExtraContrast(cfg, h) > PixelRange then ExtraContrast(cfg, h) % PixelRange
            else ExtraContrast(cfg, h)
    ensures Sum(h) - Sum(LimitedHistogram(cfg, h)) == LostContrast(cfg, h)
        <==> ExtraContrast(cfg, h) != PixelRange
  {
    LimiterMass(cfg, h);
    BonusBounds(cfg, h);
  }
}
