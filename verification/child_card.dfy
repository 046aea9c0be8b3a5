/**
 The card that shows one person's week on the reward chart: progress toward
 the next milestone, the filled/empty state of each star, the toggle event a
 click emits, and the card's CSS classes.
 */
module ChildCard {
  import opened Common
  import opened ChartData

  /** The card's inputs. */
  datatype Card = Card(
    person: FamilyMember,
    personIndex: nat,
    section: Section,
    habits: seq<string>,
    days: seq<string>,
    starsData: Stars,
    totalStars: int,
    nextMilestone: Option<int>)

  /** The payload of the `starToggled` output. */
  datatype StarToggleEvent = StarToggleEvent(section: Section, personIndex: nat, habitIndex: nat, dayIndex: nat)

  /** `Math.min((totalStars / nextMilestone) * 100, 100)`, in exact arithmetic. */
  function ProgressPercent(totalStars: int, nextMilestone: int): (r: real)
    requires nextMilestone > 0
    ensures r <= 100.0
    ensures totalStars < nextMilestone ==> r == (totalStars as real) * 100.0 / (nextMilestone as real)
    ensures totalStars >= nextMilestone ==> r == 100.0
    ensures totalStars >= 0 ==> r >= 0.0
  {
    var ratio := (totalStars as real / nextMilestone as real) * 100.0;
    if ratio < 100.0 then ratio else 100.0
  }

  /** Progress never falls when stars are added toward the same milestone. */
  lemma ProgressMonotone(t1: int, t2: int, m: int)
    requires m > 0 && t1 <= t2
    ensures ProgressPercent(t1, m) <= ProgressPercent(t2, m)
  {
    if t2 < m {
      DivideMonotone((t1 as real) * 100.0, (t2 as real) * 100.0, m as real);
    }
  }

  lemma DivideMonotone(a: real, b: real, m: real)
    requires a <= b && m > 0.0
    ensures a / m <= b / m
  {
    assert b / m - a / m == (b - a) / m;
  }

  /** `starsData[personIndex]?.[habitIndex]?.[dayIndex] || false` */
  function IsStarFilled(card: Card, habitIndex: nat, dayIndex: nat): (filled: bool)
    ensures filled ==> Slot(card.personIndex, habitIndex) in card.starsData
    ensures Slot(card.personIndex, habitIndex) in card.starsData ==>
              filled == (dayIndex < |card.starsData[Slot(card.personIndex, habitIndex)]|
                         && card.starsData[Slot(card.personIndex, habitIndex)][dayIndex])
  {
    Cell(card.starsData, card.personIndex, habitIndex, dayIndex)
  }

  /** The event a click on star (habit, day) emits. */
  function OnStarClick(card: Card, habitIndex: nat, dayIndex: nat): (e: StarToggleEvent)
    ensures e.section == card.section && e.personIndex == card.personIndex
    ensures e.habitIndex == habitIndex && e.dayIndex == dayIndex
  {
    StarToggleEvent(card.section, card.personIndex, habitIndex, dayIndex)
  }

  /** The card as the chart renders it for person `p` of section `sec`. */
  function CardFor(c: Chart, sec: Section, p: nat): (card: Card)
    requires p < |MembersOf(c, sec)|
    ensures card.starsData == StarsOf(c, sec) && card.personIndex == p && card.section == sec
    ensures card.person == MembersOf(c, sec)[p] && card.totalStars == TotalStars(c, sec, p)
    ensures card.nextMilestone == NextMilestone(RewardsOf(c, sec), card.totalStars)
    ensures card.nextMilestone.None? <==> |RewardsOf(c, sec)| == 0
  {
    var total := TotalStars(c, sec, p);
    Card(MembersOf(c, sec)[p], p, sec, if sec == Kids then c.kidsHabits else c.parentHabits, c.days,
         StarsOf(c, sec), total, NextMilestone(RewardsOf(c, sec), total))
  }

  /**
   A click on a card, handed to the chart's toggleStar, flips exactly the star
   the card shows at that position.
   */
  lemma ClickFlipsShownStar(c: Chart, sec: Section, p: nat, h: nat, d: nat)
    requires p < |MembersOf(c, sec)| && h < HabitCount(c, sec)
    requires Covers(StarsOf(c, sec), |MembersOf(c, sec)|, HabitCount(c, sec))
    ensures var e := OnStarClick(CardFor(c, sec, p), h, d);
      && ToggleStar(c, e.section, e.personIndex, e.habitIndex, e.dayIndex).Ok?
      && IsStarFilled(CardFor(ToggleStar(c, e.section, e.personIndex, e.habitIndex, e.dayIndex).value, sec, p), h, d)
         == !IsStarFilled(CardFor(c, sec, p), h, d)
  {
    assert Slot(p, h) in Slots(|MembersOf(c, sec)|, HabitCount(c, sec));
  }

  const BaseClasses: string := "bg-cream-100 rounded-md border-2 p-16 shadow-sm"

  /** The `colorMap` lookup; `None` for a className it does not list. */
  function ColorClasses(className: string): Option<string>
  {
    if className == "child-1" then Some("border-child-1 bg-child-1/10")
    else if className == "child-2" then Some("border-child-2 bg-child-2/10")
    else if className == "child-3" then Some("border-child-3 bg-child-3/10")
    else if className == "parent" then Some("border-parent bg-parent/10")
    else None
  }

  /** `${baseClasses} ${colorMap[className] || ''}` */
  function GetCardClasses(card: Card): (classes: string)
    ensures BaseClasses + " " <= classes
    ensures ColorClasses(card.person.className).None? ==> classes == BaseClasses + " "
    ensures ColorClasses(card.person.className).Some? ==>
              classes == BaseClasses + " " + ColorClasses(card.person.className).value
  {
    var extra := match ColorClasses(card.person.className)
      case Some(cls) => cls
      case None => "";
    BaseClasses + " " + extra
  }

  /** Every member of the initial chart gets a colour class of its own. */
  lemma InitialMembersAreColoured(sec: Section, p: nat)
    requires p < |MembersOf(InitialChart, sec)|
    ensures ColorClasses(MembersOf(InitialChart, sec)[p].className).Some?
  {
  }
}
