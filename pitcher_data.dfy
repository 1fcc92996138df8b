/**
 * A pitcher's card: the common card data plus the popout range, the innings
 * threshold before fatigue, the role and the throwing hand.
 */
module Pitchers {
  import opened Ranges
  import opened StrategyCards
  import Players

  datatype PitcherCard = PitcherCard(
    base: Players.CardData,
    popout: Range,
    innings: int,
    role: string,
    hand: string)

  /** The events a pitcher's `checkCard` emits: the common chain's, then "PU" when the popout range matches. */
  function PitcherOutcome(p: PitcherCard, dice: int): seq<string>
  {
    Players.BaseOutcome(p.base, dice) + (if p.popout.InRange(dice) then ["PU"] else [])
  }

  /**
   * Resolves a roll for a pitcher: the common seven-range chain first, then a
   * separate popout test. Popout takes no precedence, so a roll can emit two
   * events, "PU" last. Only the channel's log changes.
   */
  method CheckCard(p: PitcherCard, dice: int, sink: StrategyCard)
    modifies sink
    ensures sink.events == old(sink.events) + PitcherOutcome(p, dice)
  {
    Players.CheckCard(p.base, dice, sink);
    if p.popout.InRange(dice) {
      sink.Emit("PU");
    }
  }

  /**
   * The pitcher's events begin with exactly the common chain's; "PU" appears
   * iff the popout range contains the roll, and then it is the last of at
   * most two events.
   */
  lemma PitcherOutcomeShape(p: PitcherCard, dice: int)
    ensures |PitcherOutcome(p, dice)| <= 2
    ensures PitcherOutcome(p, dice)[..|Players.BaseOutcome(p.base, dice)|] == Players.BaseOutcome(p.base, dice)
    ensures "PU" in PitcherOutcome(p, dice) <==> p.popout.InRange(dice)
    ensures "PU" in PitcherOutcome(p, dice) ==> PitcherOutcome(p, dice)[|PitcherOutcome(p, dice)| - 1] == "PU"
  {
    var base := Players.BaseOutcome(p.base, dice);
    assert "PU" !in Players.Categories;
    assert "PU" !in base;
  }

  /** A roll in both the popout and the strikeout range emits "SO" and then "PU". */
  lemma PopoutAfterStrikeout(p: PitcherCard, v: int)
    requires p.popout.InRange(v) && p.base.strikeout.InRange(v)
    ensures PitcherOutcome(p, v) == ["SO", "PU"]
  {
    Players.StrikeoutFirst(p.base, v);
  }

  /** Outside the popout range a pitcher resolves exactly like the common chain. */
  lemma NoPopoutSameAsBase(p: PitcherCard, dice: int)
    requires !p.popout.InRange(dice)
    ensures PitcherOutcome(p, dice) == Players.BaseOutcome(p.base, dice)
  {
  }

  /**
   * Fatigue check for `soFar` innings pitched: 0 while within the threshold,
   * otherwise the (negative) number of innings beyond it.
   */
  function CheckInnings(p: PitcherCard, soFar: int): (r: int)
    ensures r <= 0
    ensures r == 0 <==> soFar <= p.innings
    ensures r < 0 ==> r + soFar == p.innings
  {
    if soFar > p.innings then p.innings - soFar else 0
  }
}
