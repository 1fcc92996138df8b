/**
 * A player card (the data common to pitchers and hitters) and the queries
 * made of it: outcome resolution against a roll, fielding eligibility, the
 * list of eligible positions, identity equality and set-number ordering.
 */
module Players {
  import opened Ranges
  import opened Decimal
  import opened StrategyCards

  /**
   * Fielding ratings indexed by scorecard position (1 = pitcher, 2 = catcher,
   * 3 = first base, ..., 9 = right field, 0 = designated hitter). A negative
   * rating means the player may not field that position.
   */
  type Fielding = s: seq<int> | |s| == 10 witness [-1, -1, -1, -1, -1, -1, -1, -1, -1, -1]

  /** A card as loaded from the catalog; nothing changes it afterwards. */
  datatype CardData = CardData(
    setNum: int,
    edition: string,
    name: string,
    setTeam: string,
    year: string,
    cost: int,
    special: set<string>,
    strikeout: Range,
    groundout: Range,
    flyout: Range,
    walk: Range,
    single: Range,
    twobase: Range,
    homer: Range,
    positions: Fielding,
    baseMod: int)

  // ---------------------------------------------------------------------
  // Outcome resolution

  /** The outcome categories in the order `checkCard` tests them. */
  const Categories: seq<string> := ["SO", "GO", "FO", "BB", "1B", "2B", "HR"]

  /** The card's ranges, in the same order as `Categories`. */
  function OutcomeRanges(c: CardData): (rs: seq<Range>)
    ensures |rs| == |Categories|
  {
    [c.strikeout, c.groundout, c.flyout, c.walk, c.single, c.twobase, c.homer]
  }

  /** The name of the first range containing `dice`, or nothing when none does. */
  function FirstHit(names: seq<string>, ranges: seq<Range>, dice: int): (events: seq<string>)
    requires |names| == |ranges|
    ensures |events| <= 1
    ensures forall e :: e in events ==> e in names
  {
    if ranges == [] then []
    else if ranges[0].InRange(dice) then [names[0]]
    else FirstHit(names[1..], ranges[1..], dice)
  }

  /** The events `checkCard` emits for a roll. */
  function BaseOutcome(c: CardData, dice: int): seq<string>
  {
    FirstHit(Categories, OutcomeRanges(c), dice)
  }

  /** When range `k` is the first to contain `dice`, the name emitted is the `k`-th. */
  lemma {:induction false} FirstHitAt(names: seq<string>, ranges: seq<Range>, dice: int, k: nat)
    requires |names| == |ranges| && k < |ranges|
    requires ranges[k].InRange(dice)
    requires forall j :: 0 <= j < k ==> !ranges[j].InRange(dice)
    ensures FirstHit(names, ranges, dice) == [names[k]]
  {
    if k > 0 {
      assert !ranges[0].InRange(dice);
      FirstHitAt(names[1..], ranges[1..], dice, k - 1);
    }
  }

  /** Nothing is emitted exactly when no range contains `dice`. */
  lemma {:induction false} FirstHitNone(names: seq<string>, ranges: seq<Range>, dice: int)
    requires |names| == |ranges|
    ensures FirstHit(names, ranges, dice) == [] <==> forall k :: 0 <= k < |ranges| ==> !ranges[k].InRange(dice)
  {
    if ranges != [] && !ranges[0].InRange(dice) {
      FirstHitNone(names[1..], ranges[1..], dice);
      assert forall k :: 1 <= k < |ranges| ==> ranges[k] == ranges[1..][k - 1];
    }
  }

  /** Whatever is emitted names the first range, in order, that contains `dice`. */
  lemma {:induction false} FirstHitIsFirst(names: seq<string>, ranges: seq<Range>, dice: int)
    requires |names| == |ranges|
    requires FirstHit(names, ranges, dice) != []
    ensures exists k :: 0 <= k < |ranges| && FirstHit(names, ranges, dice) == [names[k]] && ranges[k].InRange(dice)
                        && forall j :: 0 <= j < k ==> !ranges[j].InRange(dice)
  {
    if !ranges[0].InRange(dice) {
      FirstHitIsFirst(names[1..], ranges[1..], dice);
      var k :| 0 <= k < |ranges| - 1 && FirstHit(names[1..], ranges[1..], dice) == [names[1..][k]]
               && ranges[1..][k].InRange(dice) && forall j :: 0 <= j < k ==> !ranges[1..][j].InRange(dice);
      assert forall j :: 1 <= j < k + 1 ==> ranges[j] == ranges[1..][j - 1];
      assert FirstHit(names, ranges, dice) == [names[k + 1]] && ranges[k + 1].InRange(dice);
    } else {
      assert FirstHit(names, ranges, dice) == [names[0]];
    }
  }

  /**
   * `checkCard` emits at most one event: nothing when no range contains the
   * roll, and otherwise the category of the first range, in the order
   * SO, GO, FO, BB, 1B, 2B, HR, that contains it.
   */
  lemma CheckCardOutcome(c: CardData, dice: int)
    ensures |BaseOutcome(c, dice)| <= 1
    ensures BaseOutcome(c, dice) == [] <==> forall k :: 0 <= k < 7 ==> !OutcomeRanges(c)[k].InRange(dice)
    ensures BaseOutcome(c, dice) != [] ==>
              exists k :: 0 <= k < 7 && BaseOutcome(c, dice) == [Categories[k]] && OutcomeRanges(c)[k].InRange(dice)
                          && forall j :: 0 <= j < k ==> !OutcomeRanges(c)[j].InRange(dice)
  {
    FirstHitNone(Categories, OutcomeRanges(c), dice);
    if BaseOutcome(c, dice) != [] {
      FirstHitIsFirst(Categories, OutcomeRanges(c), dice);
    }
  }

  /** A roll inside the strikeout range is a strikeout, whatever the other ranges hold. */
  lemma StrikeoutFirst(c: CardData, dice: int)
    requires c.strikeout.InRange(dice)
    ensures BaseOutcome(c, dice) == ["SO"]
  {
  }

  /** A roll inside no range emits nothing. */
  lemma NoRangeNoEvent(c: CardData, dice: int)
    requires !c.strikeout.InRange(dice) && !c.groundout.InRange(dice) && !c.flyout.InRange(dice)
    requires !c.walk.InRange(dice) && !c.single.InRange(dice) && !c.twobase.InRange(dice)
    requires !c.homer.InRange(dice)
    ensures BaseOutcome(c, dice) == []
  {
    FirstHitNone(Categories, OutcomeRanges(c), dice);
  }

  /**
   * Resolves a roll against the card: emits the first matching category into
   * the strategy-card channel. The card itself is a value and is not changed;
   * the only effect is the append to the channel's log.
   */
  method CheckCard(c: CardData, dice: int, sink: StrategyCard)
    modifies sink
    ensures sink.events == old(sink.events) + BaseOutcome(c, dice)
  {
    var rs := OutcomeRanges(c);
    if c.strikeout.InRange(dice) {
      FirstHitAt(Categories, rs, dice, 0);
      sink.Emit("SO");
    } else if c.groundout.InRange(dice) {
      FirstHitAt(Categories, rs, dice, 1);
      sink.Emit("GO");
    } else if c.flyout.InRange(dice) {
      FirstHitAt(Categories, rs, dice, 2);
      sink.Emit("FO");
    } else if c.walk.InRange(dice) {
      FirstHitAt(Categories, rs, dice, 3);
      sink.Emit("BB");
    } else if c.single.InRange(dice) {
      FirstHitAt(Categories, rs, dice, 4);
      sink.Emit("1B");
    } else if c.twobase.InRange(dice) {
      FirstHitAt(Categories, rs, dice, 5);
      sink.Emit("2B");
    } else if c.homer.InRange(dice) {
      FirstHitAt(Categories, rs, dice, 6);
      sink.Emit("HR");
    } else {
      FirstHitNone(Categories, rs, dice);
    }
  }

  // ---------------------------------------------------------------------
  // Fielding

  /**
   * Whether the player may field position `i`: any listed position, and also
   * the DH slot (0) when the pitcher rating is exactly 0.
   */
  function PlaysPosition(c: CardData, i: int): (r: bool)
    requires 0 <= i < 10
    ensures r <==> i in Eligible(c) || (i == 0 && c.positions[1] == 0)
  {
    EligibleBelowSpec(c.positions, 10);
    if i == 0 && c.positions[1] == 0 then true else c.positions[i] >= 0
  }

  /** The fielding rating at position `i`; it is non-negative exactly at the listed positions. */
  function GetFielding(c: CardData, i: int): (r: int)
    requires 0 <= i < 10
    ensures r >= 0 <==> i in Eligible(c)
  {
    EligibleBelowSpec(c.positions, 10);
    c.positions[i]
  }

  /** The eligible positions below `n`, ascending. */
  function EligibleBelow(pos: Fielding, n: nat): seq<nat>
    requires n <= 10
  {
    if n == 0 then []
    else EligibleBelow(pos, n - 1) + (if pos[n - 1] >= 0 then [n - 1] else [])
  }

  /** The eligible positions below `n` are exactly those with a rating, each below `n`, ascending. */
  lemma {:induction false} EligibleBelowSpec(pos: Fielding, n: nat)
    requires n <= 10
    ensures forall x :: x in EligibleBelow(pos, n) <==> 0 <= x < n && pos[x] >= 0
    ensures forall j :: 0 <= j < |EligibleBelow(pos, n)| ==> EligibleBelow(pos, n)[j] < n
    ensures forall j, k :: 0 <= j < k < |EligibleBelow(pos, n)| ==> EligibleBelow(pos, n)[j] < EligibleBelow(pos, n)[k]
  {
    if n > 0 {
      EligibleBelowSpec(pos, n - 1);
    }
  }

  /** Every position the card lists a rating for, ascending. */
  function Eligible(c: CardData): seq<nat>
  {
    EligibleBelow(c.positions, 10)
  }

  /** Positions written in decimal and separated by ", ". */
  function PositionList(xs: seq<nat>): (s: string)
    ensures s == "" <==> xs == []
  {
    if xs == [] then ""
    else if xs[..|xs| - 1] == [] then NatText(xs[|xs| - 1])
    else PositionList(xs[..|xs| - 1]) + ", " + NatText(xs[|xs| - 1])
  }

  /**
   * Lists the positions the player may field, ascending and separated by
   * ", "; the empty string when there are none.
   */
  method QueryPosition(c: CardData) returns (plays: string)
    ensures plays == PositionList(Eligible(c))
  {
    plays := "";
    for i := 0 to 10
      invariant plays == PositionList(EligibleBelow(c.positions, i))
    {
      PositionListStep(c.positions, i);
      if c.positions[i] >= 0 {
        if |plays| == 0 {
          plays := plays + NatText(i);
        } else {
          plays := plays + ", " + NatText(i);
        }
      }
    }
  }

  /** One step of the scan: position `i` is appended to the list when it has a rating. */
  lemma PositionListStep(pos: Fielding, i: nat)
    requires i < 10
    ensures var before := PositionList(EligibleBelow(pos, i));
            PositionList(EligibleBelow(pos, i + 1))
              == if pos[i] < 0 then before
                 else if before == "" then NatText(i)
                 else before + ", " + NatText(i)
  {
    var xs := EligibleBelow(pos, i);
    if pos[i] >= 0 {
      assert (xs + [i])[..|xs|] == xs;
    } else {
      assert EligibleBelow(pos, i + 1) == xs;
    }
  }

  /**
   * The position list read back: for one-digit positions, the `k`-th position
   * is the character at offset 3k, and ", " separates neighbours.
   */
  lemma {:induction false} PositionListLayout(xs: seq<nat>)
    requires forall j :: 0 <= j < |xs| ==> xs[j] < 10
    ensures xs != [] ==> |PositionList(xs)| == 3 * |xs| - 2
    ensures forall k :: 0 <= k < |xs| ==> PositionList(xs)[3 * k] == DigitChar(xs[k])
    ensures forall k :: 0 <= k < |xs| - 1 ==> PositionList(xs)[3 * k + 1] == ',' && PositionList(xs)[3 * k + 2] == ' '
  {
    if xs != [] {
      var front := xs[..|xs| - 1];
      PositionListLayout(front);
    }
  }

  /**
   * `queryPosition` lists exactly the positions with a non-negative rating,
   * ascending, and is empty when there are none.
   */
  lemma QueryPositionContents(c: CardData)
    ensures forall i :: i in Eligible(c) <==> 0 <= i < 10 && GetFielding(c, i) >= 0
    ensures forall j, k :: 0 <= j < k < |Eligible(c)| ==> Eligible(c)[j] < Eligible(c)[k]
    ensures PositionList(Eligible(c)) == "" <==> forall i :: 0 <= i < 10 ==> GetFielding(c, i) < 0
  {
    EligibleBelowSpec(c.positions, 10);
    if forall i :: 0 <= i < 10 ==> GetFielding(c, i) < 0 {
      if Eligible(c) != [] {
        assert Eligible(c)[0] in Eligible(c);
      }
    }
  }

  /**
   * `playsPosition` agrees with the listed positions, except that the DH slot
   * is also open to a card whose pitcher rating is exactly 0.
   */
  lemma PlaysPositionListed(c: CardData, i: int)
    requires 0 <= i < 10
    ensures PlaysPosition(c, i) <==> i in Eligible(c) || (i == 0 && GetFielding(c, 1) == 0)
    ensures i != 0 ==> (PlaysPosition(c, i) <==> GetFielding(c, i) >= 0)
  {
    EligibleBelowSpec(c.positions, 10);
  }

  // ---------------------------------------------------------------------
  // Identity and ordering

  /** What `equals` may be handed: a card, or anything else (null included). */
  datatype Object = Card(card: CardData) | NotACard

  /** Two cards are equal when their set numbers and names are. */
  function Equals(c: CardData, o: Object): (r: bool)
    ensures r <==> o.Card? && o.card.setNum == c.setNum && o.card.name == c.name
  {
    if o == Card(c) then true
    else if !o.Card? then false
    else o.card.setNum == c.setNum && o.card.name == c.name
  }

  lemma EqualsIsEquivalence(a: CardData, b: CardData, d: CardData)
    ensures Equals(a, Card(a))
    ensures Equals(a, Card(b)) <==> Equals(b, Card(a))
    ensures Equals(a, Card(b)) && Equals(b, Card(d)) ==> Equals(a, Card(d))
    ensures !Equals(a, NotACard)
  {
  }

  /** Orders cards by set number: the sign of the result is the comparison of set numbers. */
  function CompareTo(c: CardData, p: CardData): (r: int)
    ensures r < 0 <==> c.setNum < p.setNum
    ensures r == 0 <==> c.setNum == p.setNum
    ensures r > 0 <==> c.setNum > p.setNum
  {
    c.setNum - p.setNum
  }

  lemma CompareToIsOrder(a: CardData, b: CardData, d: CardData)
    ensures CompareTo(a, b) == -CompareTo(b, a)
    ensures CompareTo(a, b) < 0 && CompareTo(b, d) < 0 ==> CompareTo(a, d) < 0
    ensures Equals(a, Card(b)) ==> CompareTo(a, b) == 0
  {
  }

  /** Two distinct cards may share a set number: `compareTo` is 0 but `equals` is false. */
  lemma CompareToCoarserThanEquals(a: CardData)
    ensures exists b :: CompareTo(a, b) == 0 && !Equals(a, Card(b))
  {
    var b := a.(name := a.name + "'");
    assert CompareTo(a, b) == 0 && !Equals(a, Card(b));
  }
}
