# MLB Showdown card and lineup core, in Dafny

This project models the logic at the centre of an MLB Showdown card manager:

- **Outcome resolution.** A player card holds seven outcome ranges (strikeout, groundout, flyout, walk,
  single, double, homer). A die roll is checked against them in that fixed order, and the first range that
  contains it emits its category name (`SO`, `GO`, `FO`, `BB`, `1B`, `2B`, `HR`) to the strategy-card
  channel. A pitcher card runs that chain and then, separately, emits `PU` when its popout range contains
  the roll.
- **Card queries.** Fielding eligibility (with the designated-hitter rule), the list of eligible positions,
  equality by set number and name, ordering by set number, and the pitcher's fatigue check.
- **Lineup table.** The lineup editor's table has rows of (batting slot, name, field position). The model
  covers the signed-integer validator for typed cells, the edit of a batting-slot cell (swap two rows'
  players, rewrite the edited slot) and the loop that numbers the first nine rows 1-9.

Files and modules:

- `ranges.dfy` (`Ranges`): the outcome range, as an assumption about a class this model does not include.
  A range is either an inclusive interval `lo..hi` or the sentinel that matches nothing.
- `strategy_card.dfy` (`StrategyCards`): the notification channel. The source uses a static method; here
  the channel is an object passed to the resolution methods, and its `events` field logs what was emitted.
- `decimal.dfy` (`Decimal`): decimal text of naturals (Java's `"" + n`) and the value of digit strings.
- `player_data.dfy` (`Players`): the card as an immutable datatype, and the card operations.
- `pitcher_data.dfy` (`Pitchers`): the pitcher card, its `checkCard` override and `checkInnings`.
- `lineup_table.dfy` (`LineupTable`): `isInteger`, `columnZeroModified` on an array of rows, and the
  renumbering loop.
- `wrappers.dfy` (`Wrappers`): `Option`.

Cards are values: nothing in the source changes a card after loading. So `CheckCard` is a method whose only
frame is the channel (`modifies sink`); that frame is the statement that resolution changes no card field.
The two table operations update an `array<Row>` in place. Each is specified by a function of the old
contents (`Renumbered`, `EditedTable`/`EditFault`), and the lemmas about those functions state the
promised properties.

Two behaviours of the code are worth stating plainly:

- **Popout order.** A pitcher's `checkCard` (src/players/PitcherData.java:74-79) runs the common chain
  first and then tests the popout range on its own, so popout takes no precedence. A roll in both the
  popout and the strikeout range emits `SO` and then `PU` (`Pitchers.PopoutAfterStrikeout`).
- **DH rule.** The comment at src/players/PlayerData.java:240 reads "All positions are valid as DH's other
  than Pitchers". Lines 241-244 instead grant DH whenever the pitcher rating is exactly 0, and otherwise use
  the card's own DH rating. The model states what the code does (`Players.PlaysPosition`).

## Model

| member | source | states |
|---|---|---|
| `Players.CheckCard` | src/players/PlayerData.java:288-304 | the channel's log grows by exactly `BaseOutcome(c, dice)` and nothing else is modified |
| `Players.CheckCardOutcome` | src/players/PlayerData.java:288-304 | at most one event; none iff no range contains the roll; otherwise the category of the first range, in order SO, GO, FO, BB, 1B, 2B, HR, that contains it |
| `Players.FirstHitAt` | src/players/PlayerData.java:289-303 | when range k is the first to contain the roll, the k-th name is emitted |
| `Players.FirstHitNone` | src/players/PlayerData.java:288-304 | the chain emits nothing iff no range contains the roll |
| `Players.FirstHitIsFirst` | src/players/PlayerData.java:289-303 | any emitted name belongs to a range that contains the roll and no earlier range does |
| `Players.FirstHit` | src/players/PlayerData.java:289-303 | the chain emits at most one event, and only a name from the category list |
| `Players.StrikeoutFirst` | src/players/PlayerData.java:289-290 | a roll in the strikeout range emits `SO`, whatever the other ranges contain |
| `Players.NoRangeNoEvent` | src/players/PlayerData.java:288-304 | a roll in no range emits nothing |
| `Players.PlaysPosition` | src/players/PlayerData.java:239-245 | true iff the position is one of the listed positions, or it is DH and the pitcher rating is exactly 0 |
| `Players.GetFielding` | src/players/PlayerData.java:276-278 | the rating is non-negative exactly at the positions `queryPosition` lists |
| `Players.PlaysPositionListed` | src/players/PlayerData.java:239-245 | `playsPosition(i)` iff i is a listed position, or i is DH and the pitcher rating is 0; for i other than 0, iff the rating `getFielding(i)` is non-negative |
| `Players.QueryPosition` | src/players/PlayerData.java:254-266 | the loop builds the decimal list of the eligible positions, ascending, joined by ", " |
| `Players.EligibleBelowSpec` | src/players/PlayerData.java:256-257 | the positions scanned so far with a non-negative rating are listed exactly, in strictly ascending order |
| `Players.QueryPositionContents` | src/players/PlayerData.java:254-266 | listed positions are exactly those 0..9 with a non-negative rating, ascending; the string is empty iff there are none |
| `Players.PositionList` | src/players/PlayerData.java:258-262 | the joined list is empty iff there are no positions |
| `Players.PositionListLayout` | src/players/PlayerData.java:258-262 | the string can be read back: length 3n-2, position k at offset 3k, ", " between neighbours |
| `Players.Equals` | src/players/PlayerData.java:335-345 | true iff the argument is a card with the same set number and name; false for anything else |
| `Players.EqualsIsEquivalence` | src/players/PlayerData.java:335-345 | equality is reflexive, symmetric and transitive, and never holds for a non-card |
| `Players.CompareTo` | src/players/PlayerData.java:325-327 | negative, zero or positive exactly when this set number is less than, equal to or greater than the other's |
| `Players.CompareToIsOrder` | src/players/PlayerData.java:325-327 | antisymmetric, transitive on "less", and 0 for equal cards |
| `Players.CompareToCoarserThanEquals` | src/players/PlayerData.java:325-345 | two cards can compare as 0 and still not be equal |
| `Pitchers.CheckCard` | src/players/PitcherData.java:74-79 | the log grows by the common chain's events, then `PU` when the popout range contains the roll |
| `Pitchers.PitcherOutcomeShape` | src/players/PitcherData.java:74-79 | at most two events; they begin with exactly the common chain's; `PU` appears iff the popout range matches, and then it is last |
| `Pitchers.PopoutAfterStrikeout` | src/players/PitcherData.java:75-78 | a roll in both the popout and the strikeout range emits `SO` then `PU` |
| `Pitchers.NoPopoutSameAsBase` | src/players/PitcherData.java:74-79 | outside the popout range the pitcher emits the same events as the common chain |
| `Pitchers.CheckInnings` | src/players/PitcherData.java:83-88 | always at most 0; 0 iff innings so far are within the threshold; otherwise the threshold minus innings so far, which is negative |
| `Decimal.DigitsValueOfNatText` | src/graphicsInterface/MainRunner.java:429-444 | the decimal text of n reads back as n |
| `Decimal.NatText` | src/players/PlayerData.java:259-261 | the decimal text of a number is a non-empty digit string, one character long iff the number is below 10 |
| `LineupTable.IsInteger` | src/graphicsInterface/MainRunner.java:411-423 | the scan returns true iff the text is an optional '-' followed by at least one digit |
| `LineupTable.IntegerTextByCharacters` | src/graphicsInterface/MainRunner.java:411-423 | integer text iff non-empty, not "-", and every character a digit except that index 0 may be '-' |
| `LineupTable.NotIntegerText` | src/graphicsInterface/MainRunner.java:412-418 | "" and "-" are rejected, and so is any text with '-' past index 0 |
| `LineupTable.ParseNatText` | src/graphicsInterface/MainRunner.java:428-444 | the slot text written for a row is integer text and parses back to the slot number |
| `LineupTable.Renumber` | src/graphicsInterface/MainRunner.java:379-384 | the array becomes `Renumbered` of its old contents |
| `LineupTable.RenumberedIsNumbered` | src/graphicsInterface/MainRunner.java:379-384 | row i gets slot i+1 for i < 9 and no slot (null) after; names and field positions are unchanged |
| `LineupTable.NumberedSlotsDistinct` | src/graphicsInterface/MainRunner.java:379-384 | in a numbered table no two rows share a slot, and every slot lies in 1..9 |
| `LineupTable.ColumnZeroModified` | src/graphicsInterface/MainRunner.java:425-448 | on an exception the table is unchanged and the fault is reported; otherwise the array becomes `EditedTable` of its old contents |
| `LineupTable.EditSwaps` | src/graphicsInterface/MainRunner.java:433-441 | a typed slot v in 1..9 other than row+1 exchanges names and field positions of rows `row` and v-1; the slot of v-1 and every other row are unchanged |
| `LineupTable.EditWithoutSwap` | src/graphicsInterface/MainRunner.java:427-447 | without a swap only column 0 of the edited row changes |
| `LineupTable.NoSwapCases` | src/graphicsInterface/MainRunner.java:427-434 | no swap iff the text is not an integer, lies outside 1..9, or equals row+1 |
| `LineupTable.EditWritesSlot` | src/graphicsInterface/MainRunner.java:443-447 | the edited row's slot becomes the text of row+1 (which parses to row+1) for the first nine rows, and "" after |
| `LineupTable.EditKeepsNames` | src/graphicsInterface/MainRunner.java:435-440 | the multiset of names in column 1 is preserved |
| `LineupTable.EditRestoresNumbering` | src/graphicsInterface/MainRunner.java:425-448 | when every row but the edited one is numbered, the edit (swap or not) leaves every row numbered with its own slot |
| `LineupTable.SwappingEditRestoresNumbering` | src/graphicsInterface/MainRunner.java:433-447 | example: typing 3 into row 0 of a three-row table swaps the players of rows 0 and 2, and the table ends numbered |

## Left out

- Swing presentation code in `MainRunner` (frames, menus, lists, listeners, file choosers, `main`): foreign
  library glue with no logic of its own.
- The sort of lineup rows by slot before renumbering (MainRunner.java:372-377): a library sort with a
  comparator over boxed values. The renumbering loop is modelled on the rows as given.
- The field-position nulling in the renumbering loop (MainRunner.java:385-387) and column-2 edits
  (MainRunner.java:283-291): both depend on `Position`, which is not part of this model.
- `columnZeroModified`'s `column` parameter is fixed to 0, the only value its caller passes.
- What a `LineupTable.Fault` does to the program afterwards: the table listener removes itself before the
  edit and re-adds itself only after it (MainRunner.java:278, 293), so after any such exception the editor
  stops reacting to cell edits. That is listener glue and is not modelled.
- Players.PlaysPosition / Players.GetFielding: require a position in 0..9. For any other index, 10 included
  (used elsewhere for "not on field"), Java throws ArrayIndexOutOfBoundsException; that exception is not
  modelled.
- The `PitcherData` constructor's catalog parsing: it depends on `Scanner`'s token and line semantics and on
  `Range.parseRange`, which is not part of this model.
- `getCard` formatting: it depends on `Range.toString`, which is not part of this model; the common version only throws.
- Getters and setters: plain field access.
- `Range`, `Position`, `StrategyCard`, `LineupManager`, `DraftManager` and `HitterData` are not part of this
  model. `Range.inRange` is assumed to be an inclusive interval test or never true. `StrategyCard.emit` is
  assumed to append to a log. Hitters are assumed to resolve with the common chain.
- Players.CompareTo: set numbers are unbounded integers, so Java's `int` overflow in the subtraction for
  set numbers far apart is not modelled.
- Pitchers.CheckInnings: the subtraction is on unbounded integers; Java `int` overflow for extreme
  arguments is not modelled.
- LineupTable.IsInteger: only the ASCII digits '0'..'9' count as digits. `Character.isDigit` also accepts
  other Unicode decimal digits, which `Integer.parseInt` reads as well.
