/**
 The reward chart's state and its local operations: a person x habit x day
 grid of stars for two sections (children and parents), the reward lists, and
 the pure operations the chart service performs on them. Persistence to the
 remote store is not part of this module.
 */
module ChartData {
  import opened Common

  /** The two halves of the chart ('kids' | 'parents'). */
  datatype Section = Kids | Parents

  datatype FamilyMember = FamilyMember(name: string, color: string, className: string)

  datatype Reward = Reward(name: string, stars: int)

  /** One habit's week of stars; JavaScript holes read as `false`. */
  type Row = seq<bool>

  /** The address `stars[person][habit]` of one row. */
  datatype Slot = Slot(person: nat, habit: nat)

  /**
   A section's `StarsData`. The service nests `person -> habit -> row`; a
   person entry with no habit rows reads exactly like a missing one everywhere
   (isStarFilled, toggleStar, calculateTotalStars), so the grid is keyed by
   slot directly.
   */
  type Stars = map<Slot, Row>

  datatype Chart = Chart(
    children: seq<FamilyMember>,
    parents: seq<FamilyMember>,
    kidsHabits: seq<string>,
    parentHabits: seq<string>,
    days: seq<string>,
    kidsRewards: seq<Reward>,
    parentsRewards: seq<Reward>,
    kidsStars: Stars,
    parentsStars: Stars,
    parentsVisible: bool)

  const DaysPerWeek: nat := 7

  /** The row `Array(7).fill(false)` that initialisation creates. */
  function EmptyRow(): (r: Row)
    ensures |r| == DaysPerWeek
    ensures forall k :: 0 <= k < |r| ==> !r[k]
  {
    seq(DaysPerWeek, _ => false)
  }

  // ---------------------------------------------------------------------------
  // Section accessors
  // ---------------------------------------------------------------------------

  function StarsOf(c: Chart, sec: Section): Stars
  {
    if sec == Kids then c.kidsStars else c.parentsStars
  }

  function MembersOf(c: Chart, sec: Section): seq<FamilyMember>
  {
    if sec == Kids then c.children else c.parents
  }

  function HabitCount(c: Chart, sec: Section): nat
  {
    if sec == Kids then |c.kidsHabits| else |c.parentHabits|
  }

  function RewardsOf(c: Chart, sec: Section): seq<Reward>
  {
    if sec == Kids then c.kidsRewards else c.parentsRewards
  }

  function WithStars(c: Chart, sec: Section, s: Stars): Chart
  {
    if sec == Kids then c.(kidsStars := s) else c.(parentsStars := s)
  }

  function Other(sec: Section): Section
  {
    if sec == Kids then Parents else Kids
  }

  // ---------------------------------------------------------------------------
  // Reading the grid
  // ---------------------------------------------------------------------------

  /** Day `d` of a row; positions past the end read as `false`. */
  function RowCell(row: Row, d: nat): bool
  {
    d < |row| && row[d]
  }

  /** `stars[p]?.[h]?.[d] || false`: a missing person, habit or day reads as `false`. */
  function Cell(s: Stars, p: nat, h: nat, d: nat): bool
  {
    Slot(p, h) in s && RowCell(s[Slot(p, h)], d)
  }

  /** The slots of persons below `persons` and habits below `habits`. */
  function Slots(persons: nat, habits: nat): (r: set<Slot>)
    ensures forall k :: k in r <==> k.person < persons && k.habit < habits
  {
    set p: nat, h: nat | p < persons && h < habits :: Slot(p, h)
  }

  /** Every person below `persons` has a row for every habit below `habits`. */
  ghost predicate Covers(s: Stars, persons: nat, habits: nat)
  {
    forall k :: k in Slots(persons, habits) ==> k in s
  }

  /** Covers, and every such row is exactly one week long. */
  ghost predicate WeekRows(s: Stars, persons: nat, habits: nat)
  {
    forall k :: k in Slots(persons, habits) ==> k in s && |s[k]| == DaysPerWeek
  }

  /** Exactly the rows a fresh initialisation creates, and nothing else. */
  ghost predicate Blank(s: Stars, persons: nat, habits: nat)
  {
    && s.Keys == Slots(persons, habits)
    && forall k :: k in s ==> s[k] == EmptyRow()
  }

  // ---------------------------------------------------------------------------
  // initializeStars
  // ---------------------------------------------------------------------------

  /**
   initializeStars for one section: every slot below the person and habit
   counts that has no row gets `Array(7).fill(false)`; existing rows are kept.
   */
  function InitializeSection(s: Stars, persons: nat, habits: nat): (r: Stars)
    ensures r.Keys == s.Keys + Slots(persons, habits)
    ensures forall k :: k in s ==> r[k] == s[k]
    ensures forall k :: k in r && k !in s ==> r[k] == EmptyRow()
  {
    map k | k in s.Keys + Slots(persons, habits) :: if k in s then s[k] else EmptyRow()
  }

  /** The service's initializeStars: both sections are filled; nothing else changes. */
  function InitializeStars(c: Chart): (r: Chart)
    ensures forall sec :: Covers(StarsOf(r, sec), |MembersOf(c, sec)|, HabitCount(c, sec))
    ensures r.(kidsStars := c.kidsStars, parentsStars := c.parentsStars) == c
  {
    c.(kidsStars := InitializeSection(c.kidsStars, |c.children|, |c.kidsHabits|),
       parentsStars := InitializeSection(c.parentsStars, |c.parents|, |c.parentHabits|))
  }

  /** Initialisation changes no star: every added row is all `false`, like the missing row it replaces. */
  lemma InitializeKeepsCells(c: Chart, sec: Section, p: nat, h: nat, d: nat)
    ensures Cell(StarsOf(InitializeStars(c), sec), p, h, d) == Cell(StarsOf(c, sec), p, h, d)
  {
  }

  /** Initialising an initialised chart is a no-op. */
  lemma InitializeIdempotent(s: Stars, persons: nat, habits: nat)
    ensures InitializeSection(InitializeSection(s, persons, habits), persons, habits)
         == InitializeSection(s, persons, habits)
  {
  }

  // ---------------------------------------------------------------------------
  // resetWeek (local part)
  // ---------------------------------------------------------------------------

  /** Clears both grids and re-initialises them. */
  function ResetWeek(c: Chart): (r: Chart)
    ensures forall sec :: Blank(StarsOf(r, sec), |MembersOf(c, sec)|, HabitCount(c, sec))
    ensures forall sec :: WeekRows(StarsOf(r, sec), |MembersOf(c, sec)|, HabitCount(c, sec))
    ensures r.(kidsStars := c.kidsStars, parentsStars := c.parentsStars) == c
  {
    InitializeStars(c.(kidsStars := map[], parentsStars := map[]))
  }

  /** After a reset no star is set anywhere. */
  lemma ResetClearsCells(c: Chart, sec: Section, p: nat, h: nat, d: nat)
    ensures !Cell(StarsOf(ResetWeek(c), sec), p, h, d)
  {
  }

  // ---------------------------------------------------------------------------
  // toggleStar (local part)
  // ---------------------------------------------------------------------------

  /** Reading `stars[p][h]` when the person or habit entry is missing throws a TypeError. */
  datatype ToggleError = MissingRow

  /**
   `row[d] = !row[d]`. Past the end, JavaScript grows the array to `d + 1`
   elements: the gap reads as `false` and the new last element is `true`.
   */
  function FlipAt(row: Row, d: nat): (r: Row)
    ensures |r| == if d < |row| then |row| else d + 1
    ensures RowCell(r, d) == !RowCell(row, d)
    ensures forall k: nat :: k != d ==> RowCell(r, k) == RowCell(row, k)
  {
    if d < |row| then row[d := !row[d]]
    else row + seq(d - |row|, _ => false) + [true]
  }

  /** The local half of toggleStar: flips one cell of the section's grid. */
  function ToggleStar(c: Chart, sec: Section, p: nat, h: nat, d: nat): (r: Result<Chart, ToggleError>)
    ensures r.Err? <==> Slot(p, h) !in StarsOf(c, sec)
    ensures r.Ok? ==> Cell(StarsOf(r.value, sec), p, h, d) == !Cell(StarsOf(c, sec), p, h, d)
    ensures r.Ok? ==> forall p': nat, h': nat, d': nat :: (p', h', d') != (p, h, d) ==>
              Cell(StarsOf(r.value, sec), p', h', d') == Cell(StarsOf(c, sec), p', h', d')
    ensures r.Ok? ==> StarsOf(r.value, sec).Keys == StarsOf(c, sec).Keys
    ensures r.Ok? ==> StarsOf(r.value, Other(sec)) == StarsOf(c, Other(sec))
    ensures r.Ok? ==> WithStars(r.value, sec, StarsOf(c, sec)) == c
  {
    var s := StarsOf(c, sec);
    var k := Slot(p, h);
    if k in s then Ok(WithStars(c, sec, s[k := FlipAt(s[k], d)])) else Err(MissingRow)
  }

  /** Toggling the same cell twice restores every star. */
  lemma ToggleTwiceRestoresCells(c: Chart, sec: Section, p: nat, h: nat, d: nat, p': nat, h': nat, d': nat)
    requires ToggleStar(c, sec, p, h, d).Ok?
    ensures ToggleStar(ToggleStar(c, sec, p, h, d).value, sec, p, h, d).Ok?
    ensures Cell(StarsOf(ToggleStar(ToggleStar(c, sec, p, h, d).value, sec, p, h, d).value, sec), p', h', d')
         == Cell(StarsOf(c, sec), p', h', d')
  {
  }

  /** Within the row, toggling twice restores the chart exactly. */
  lemma ToggleTwiceIdentity(c: Chart, sec: Section, p: nat, h: nat, d: nat)
    requires Slot(p, h) in StarsOf(c, sec)
    requires d < |StarsOf(c, sec)[Slot(p, h)]|
    ensures ToggleStar(c, sec, p, h, d).Ok?
    ensures ToggleStar(ToggleStar(c, sec, p, h, d).value, sec, p, h, d) == Ok(c)
  {
    var s := StarsOf(c, sec);
    var k := Slot(p, h);
    assert FlipAt(FlipAt(s[k], d), d) == s[k];
    assert s[k := FlipAt(s[k], d)][k := s[k]] == s;
  }

  /** A toggle inside the week keeps every row one week long. */
  lemma ToggleKeepsWeekRows(c: Chart, sec: Section, p: nat, h: nat, d: nat)
    requires WeekRows(StarsOf(c, sec), |MembersOf(c, sec)|, HabitCount(c, sec))
    requires p < |MembersOf(c, sec)| && h < HabitCount(c, sec) && d < DaysPerWeek
    ensures ToggleStar(c, sec, p, h, d).Ok?
    ensures WeekRows(StarsOf(ToggleStar(c, sec, p, h, d).value, sec), |MembersOf(c, sec)|, HabitCount(c, sec))
  {
    assert Slot(p, h) in Slots(|MembersOf(c, sec)|, HabitCount(c, sec));
  }

  // ---------------------------------------------------------------------------
  // calculateTotalStars
  // ---------------------------------------------------------------------------

  /** `row.filter(star => star).length` */
  function CountTrue(row: Row): (n: nat)
    ensures n <= |row|
    ensures n == 0 <==> forall k :: 0 <= k < |row| ==> !row[k]
  {
    if |row| == 0 then 0
    else CountTrue(row[..|row| - 1]) + (if row[|row| - 1] then 1 else 0)
  }

  lemma {:induction false} CountTrueAppend(a: Row, b: Row)
    ensures CountTrue(a + b) == CountTrue(a) + CountTrue(b)
    decreases |b|
  {
    if |b| == 0 {
      assert a + b == a;
    } else {
      assert (a + b)[..|a + b| - 1] == a + b[..|b| - 1];
      CountTrueAppend(a, b[..|b| - 1]);
    }
  }

  /** Flipping one position changes the count by exactly one, in the direction of the new value. */
  lemma FlipAtCount(row: Row, d: nat)
    ensures CountTrue(FlipAt(row, d)) == if RowCell(row, d) then CountTrue(row) - 1 else CountTrue(row) + 1
  {
    if d < |row| {
      assert FlipAt(row, d) == row[d := !row[d]];
      assert row[d := row[d]] == row;
      SplitCount(row, d, row[d]);
      SplitCount(row, d, !row[d]);
    } else {
      GrowCount(row, d);
    }
  }

  /** Growing a row to set position `d` adds exactly one star. */
  lemma GrowCount(row: Row, d: nat)
    requires |row| <= d
    ensures CountTrue(row + seq(d - |row|, _ => false) + [true]) == CountTrue(row) + 1
  {
    var gap: Row := seq(d - |row|, _ => false);
    CountTrueAppend(row + gap, [true]);
    CountTrueAppend(row, gap);
    assert CountTrue(gap) == 0;
    assert CountTrue([true]) == 1 by {
      assert [true][..0] == [];
    }
  }

  /** The count of `row` with position `d` set to `v`, split around `d`. */
  lemma SplitCount(row: Row, d: nat, v: bool)
    requires d < |row|
    ensures CountTrue(row[d := v]) == CountTrue(row[..d]) + (if v then 1 else 0) + CountTrue(row[d + 1..])
  {
    assert row[d := v] == (row[..d] + [v]) + row[d + 1..];
    CountTrueAppend(row[..d] + [v], row[d + 1..]);
    CountTrueAppend(row[..d], [v]);
    assert CountTrue([v]) == (if v then 1 else 0) by {
      assert [v][..0] == [];
    }
  }

  /** Stars on the row of habit `h`; a missing person or habit counts 0. */
  function RowStars(s: Stars, p: nat, h: nat): nat
  {
    if Slot(p, h) in s then CountTrue(s[Slot(p, h)]) else 0
  }

  /** Stars of person `p` over habits `0 .. n-1`. */
  function StarsUpTo(s: Stars, p: nat, n: nat): nat
  {
    if n == 0 then 0 else StarsUpTo(s, p, n - 1) + RowStars(s, p, n - 1)
  }

  /** The number of stars person `p` of section `sec` has this week. */
  function TotalStars(c: Chart, sec: Section, p: nat): nat
  {
    StarsUpTo(StarsOf(c, sec), p, HabitCount(c, sec))
  }

  /** calculateTotalStars, a loop over habit indices as the service writes it. */
  method CalculateTotalStars(c: Chart, sec: Section, p: nat) returns (total: nat)
    ensures total == TotalStars(c, sec, p)
  {
    var s := StarsOf(c, sec);
    var habitsCount := HabitCount(c, sec);
    total := 0;
    var habitIndex := 0;
    while habitIndex < habitsCount
      invariant habitIndex <= habitsCount
      invariant total == StarsUpTo(s, p, habitIndex)
    {
      if Slot(p, habitIndex) in s {
        total := total + CountTrue(s[Slot(p, habitIndex)]);
      }
      habitIndex := habitIndex + 1;
    }
  }

  /** A person with no row in the grid has no stars. */
  lemma {:induction false} MissingPersonHasNoStars(s: Stars, p: nat, n: nat)
    requires forall k :: k in s ==> k.person != p
    ensures StarsUpTo(s, p, n) == 0
  {
    if n > 0 {
      MissingPersonHasNoStars(s, p, n - 1);
    }
  }

  /** With week-long rows, nobody holds more than seven stars per habit. */
  lemma {:induction false} StarsUpToBound(s: Stars, persons: nat, habits: nat, p: nat, n: nat)
    requires WeekRows(s, persons, habits)
    requires p < persons && n <= habits
    ensures StarsUpTo(s, p, n) <= DaysPerWeek * n
  {
    if n > 0 {
      StarsUpToBound(s, persons, habits, p, n - 1);
      assert Slot(p, n - 1) in Slots(persons, habits);
    }
  }

  lemma TotalStarsBound(c: Chart, sec: Section, p: nat)
    requires WeekRows(StarsOf(c, sec), |MembersOf(c, sec)|, HabitCount(c, sec))
    requires p < |MembersOf(c, sec)|
    ensures TotalStars(c, sec, p) <= DaysPerWeek * HabitCount(c, sec)
  {
    StarsUpToBound(StarsOf(c, sec), |MembersOf(c, sec)|, HabitCount(c, sec), p, HabitCount(c, sec));
  }

  /** After a reset everybody has zero stars. */
  lemma {:induction false} ResetWeekZeroTotals(c: Chart, sec: Section, p: nat)
    ensures TotalStars(ResetWeek(c), sec, p) == 0
  {
    var s := StarsOf(ResetWeek(c), sec);
    var n := HabitCount(c, sec);
    assert HabitCount(ResetWeek(c), sec) == n;
    ZeroRowsZeroStars(s, p, n);
  }

  lemma {:induction false} ZeroRowsZeroStars(s: Stars, p: nat, n: nat)
    requires forall k :: k in s ==> s[k] == EmptyRow()
    ensures StarsUpTo(s, p, n) == 0
  {
    if n > 0 {
      ZeroRowsZeroStars(s, p, n - 1);
      assert CountTrue(EmptyRow()) == 0;
    }
  }

  /** Replacing one row changes only that row's contribution. */
  lemma {:induction false} StarsUpToUpdate(s: Stars, p: nat, h: nat, row: Row, n: nat)
    requires Slot(p, h) in s
    ensures StarsUpTo(s[Slot(p, h) := row], p, n)
         == StarsUpTo(s, p, n) - (if h < n then CountTrue(s[Slot(p, h)]) else 0) + (if h < n then CountTrue(row) else 0)
  {
    if n > 0 {
      StarsUpToUpdate(s, p, h, row, n - 1);
    }
  }

  /** A successful toggle of a counted habit moves that person's total by exactly one star. */
  lemma ToggleChangesTotalByOne(c: Chart, sec: Section, p: nat, h: nat, d: nat)
    requires ToggleStar(c, sec, p, h, d).Ok?
    requires h < HabitCount(c, sec)
    ensures var c' := ToggleStar(c, sec, p, h, d).value;
      TotalStars(c', sec, p) == if Cell(StarsOf(c', sec), p, h, d)
                                then TotalStars(c, sec, p) + 1
                                else TotalStars(c, sec, p) - 1
  {
    var s := StarsOf(c, sec);
    var k := Slot(p, h);
    FlipAtCount(s[k], d);
    StarsUpToUpdate(s, p, h, FlipAt(s[k], d), HabitCount(c, sec));
    StarsUpToContains(s, p, h, HabitCount(c, sec));
  }

  lemma {:induction false} StarsUpToContains(s: Stars, p: nat, h: nat, n: nat)
    requires Slot(p, h) in s && h < n
    ensures CountTrue(s[Slot(p, h)]) <= StarsUpTo(s, p, n)
  {
    if h < n - 1 {
      StarsUpToContains(s, p, h, n - 1);
    }
  }

  // ---------------------------------------------------------------------------
  // getNextMilestone
  // ---------------------------------------------------------------------------

  ghost predicate StrictlyIncreasing(xs: seq<int>)
  {
    forall i, j :: 0 <= i < j < |xs| ==> xs[i] < xs[j]
  }

  /** `v` is the star threshold of some reward. */
  ghost predicate IsThreshold(rewards: seq<Reward>, v: int)
  {
    exists i :: 0 <= i < |rewards| && rewards[i].stars == v
  }

  /** Inserts `x` into a strictly increasing list unless it is already there. */
  function InsertDistinct(xs: seq<int>, x: int): (r: seq<int>)
    requires StrictlyIncreasing(xs)
    ensures StrictlyIncreasing(r)
    ensures forall v :: v in r <==> v in xs || v == x
  {
    if |xs| == 0 then [x]
    else if x < xs[0] then [x] + xs
    else if x == xs[0] then xs
    else
      var rest := InsertDistinct(xs[1..], x);
      assert forall k :: 0 <= k < |rest| ==> xs[0] < rest[k] by {
        forall k | 0 <= k < |rest|
          ensures xs[0] < rest[k]
        {
          assert rest[k] in rest;
          if rest[k] != x {
            var j :| 0 <= j < |xs[1..]| && xs[1..][j] == rest[k];
            assert xs[j + 1] == rest[k];
          }
        }
      }
      [xs[0]] + rest
  }

  /** `[...new Set(rewards.map(r => r.stars))].sort((a, b) => a - b)` */
  function Milestones(rewards: seq<Reward>): (ms: seq<int>)
    ensures StrictlyIncreasing(ms)
    ensures forall v :: v in ms <==> IsThreshold(rewards, v)
    ensures |ms| == 0 <==> |rewards| == 0
  {
    if |rewards| == 0 then []
    else
      ThresholdsOfSnoc(rewards);
      InsertDistinct(Milestones(rewards[..|rewards| - 1]), rewards[|rewards| - 1].stars)
  }

  lemma ThresholdsOfSnoc(rewards: seq<Reward>)
    requires |rewards| > 0
    ensures forall v :: IsThreshold(rewards, v) <==>
              IsThreshold(rewards[..|rewards| - 1], v) || v == rewards[|rewards| - 1].stars
  {
    var front := rewards[..|rewards| - 1];
    forall v | IsThreshold(front, v)
      ensures IsThreshold(rewards, v)
    {
      var i :| 0 <= i < |front| && front[i].stars == v;
      assert rewards[i].stars == v;
    }
    forall v | IsThreshold(rewards, v) && v != rewards[|rewards| - 1].stars
      ensures IsThreshold(front, v)
    {
      var i :| 0 <= i < |rewards| && rewards[i].stars == v;
      assert front[i].stars == v;
    }
  }

  /** The `for ... of` loop from position `k`: the first milestone above `stars`, else the last one. */
  function ScanFrom(ms: seq<int>, stars: int, k: nat): (r: Option<int>)
    requires StrictlyIncreasing(ms) && k <= |ms|
    requires forall i :: 0 <= i < k ==> ms[i] <= stars
    ensures r.None? <==> |ms| == 0
    ensures r.Some? ==> r.value in ms
    ensures r.Some? && (exists i :: 0 <= i < |ms| && stars < ms[i]) ==>
              stars < r.value && forall i :: 0 <= i < |ms| && stars < ms[i] ==> r.value <= ms[i]
    ensures r.Some? && (forall i :: 0 <= i < |ms| ==> ms[i] <= stars) ==>
              forall i :: 0 <= i < |ms| ==> ms[i] <= r.value
    decreases |ms| - k
  {
    if k == |ms| then
      if |ms| == 0 then None else Some(ms[|ms| - 1])
    else if stars < ms[k] then Some(ms[k])
    else ScanFrom(ms, stars, k + 1)
  }

  /**
   getNextMilestone: the smallest distinct threshold strictly above `stars`,
   or the largest threshold when none is above; `undefined` for no rewards.
   */
  function NextMilestone(rewards: seq<Reward>, stars: int): (r: Option<int>)
    ensures r.None? <==> |rewards| == 0
    ensures r.Some? ==> IsThreshold(rewards, r.value)
    ensures r.Some? && (exists i :: 0 <= i < |rewards| && stars < rewards[i].stars) ==>
              stars < r.value && forall i :: 0 <= i < |rewards| && stars < rewards[i].stars ==> r.value <= rewards[i].stars
    ensures r.Some? && (forall i :: 0 <= i < |rewards| ==> rewards[i].stars <= stars) ==>
              forall i :: 0 <= i < |rewards| ==> rewards[i].stars <= r.value
  {
    ThresholdsInMilestones(rewards);
    ScanFrom(Milestones(rewards), stars, 0)
  }

  lemma ThresholdsInMilestones(rewards: seq<Reward>)
    ensures forall i :: 0 <= i < |rewards| ==> rewards[i].stars in Milestones(rewards)
  {
    forall i | 0 <= i < |rewards|
      ensures rewards[i].stars in Milestones(rewards)
    {
      assert IsThreshold(rewards, rewards[i].stars);
    }
  }

  /** The next milestone never decreases as a person earns more stars. */
  lemma NextMilestoneMonotone(rewards: seq<Reward>, s1: int, s2: int)
    requires |rewards| > 0 && s1 <= s2
    ensures NextMilestone(rewards, s1).value <= NextMilestone(rewards, s2).value
  {
    var m1 := NextMilestone(rewards, s1).value;
    var m2 := NextMilestone(rewards, s2).value;
    var i2 :| 0 <= i2 < |rewards| && rewards[i2].stars == m2;
    if exists i :: 0 <= i < |rewards| && s2 < rewards[i].stars {
      assert s1 < rewards[i2].stars;
    } else if exists i :: 0 <= i < |rewards| && s1 < rewards[i].stars {
      var i1 :| 0 <= i1 < |rewards| && rewards[i1].stars == m1;
      assert rewards[i1].stars <= m2;
    }
  }

  /** Only the set of thresholds matters: duplicates and order of the reward list do not. */
  lemma NextMilestoneDependsOnThresholdsOnly(a: seq<Reward>, b: seq<Reward>, stars: int)
    requires forall v :: IsThreshold(a, v) <==> IsThreshold(b, v)
    ensures NextMilestone(a, stars) == NextMilestone(b, stars)
  {
    if |a| == 0 && |b| > 0 {
      assert IsThreshold(b, b[0].stars);
    } else if |b| == 0 && |a| > 0 {
      assert IsThreshold(a, a[0].stars);
    } else if |a| > 0 {
      var ra := NextMilestone(a, stars).value;
      var rb := NextMilestone(b, stars).value;
      var ia :| 0 <= ia < |a| && a[ia].stars == ra;
      var ib :| 0 <= ib < |b| && b[ib].stars == rb;
      assert IsThreshold(b, ra) && IsThreshold(a, rb);
      var ja :| 0 <= ja < |b| && b[ja].stars == ra;
      var jb :| 0 <= jb < |a| && a[jb].stars == rb;
      if exists i :: 0 <= i < |a| && stars < a[i].stars {
        var i :| 0 <= i < |a| && stars < a[i].stars;
        assert IsThreshold(b, a[i].stars);
        assert ra <= rb && rb <= ra;
      } else {
        assert ra <= rb && rb <= ra;
      }
    }
  }

  // ---------------------------------------------------------------------------
  // toggleParentsVisibility, updateChildrenNames
  // ---------------------------------------------------------------------------

  function ToggleParentsVisibility(c: Chart): (r: Chart)
    ensures r.parentsVisible != c.parentsVisible
    ensures r.(parentsVisible := c.parentsVisible) == c
  {
    c.(parentsVisible := !c.parentsVisible)
  }

  lemma ToggleParentsVisibilityTwice(c: Chart)
    ensures ToggleParentsVisibility(ToggleParentsVisibility(c)) == c
  {
  }

  /** Child `i` takes `names[i]`; names beyond the last child are ignored. */
  function UpdateChildrenNames(c: Chart, names: seq<string>): (r: Chart)
    ensures |r.children| == |c.children|
    ensures forall i :: 0 <= i < |c.children| ==>
              r.children[i].name == (if i < |names| then names[i] else c.children[i].name)
    ensures forall i :: 0 <= i < |c.children| ==>
              r.children[i].(name := c.children[i].name) == c.children[i]
    ensures r.(children := c.children) == c
  {
    c.(children := seq(|c.children|, i requires 0 <= i < |c.children| =>
                         if i < |names| then c.children[i].(name := names[i]) else c.children[i]))
  }

  /** The names the settings dialog is opened with. */
  function ChildrenNames(c: Chart): (names: seq<string>)
    ensures |names| == |c.children|
    ensures forall i :: 0 <= i < |names| ==> names[i] == c.children[i].name
  {
    seq(|c.children|, i requires 0 <= i < |c.children| => c.children[i].name)
  }

  /** Saving the names the chart already has changes nothing. */
  lemma UpdateWithOwnNamesIsIdentity(c: Chart)
    ensures UpdateChildrenNames(c, ChildrenNames(c)) == c
  {
    var r := UpdateChildrenNames(c, ChildrenNames(c));
    assert r.children == c.children;
  }

  // ---------------------------------------------------------------------------
  // The service's initial state
  // ---------------------------------------------------------------------------

  const InitialChart: Chart := Chart(
    [ FamilyMember("Fíadh", "#87CEEB", "child-1"),
      FamilyMember("Sé", "#90EE90", "child-2"),
      FamilyMember("Niall Óg", "#DDA0DD", "child-3") ],
    [ FamilyMember("Mum", "#FFE55C", "parent"),
      FamilyMember("Dad", "#FFE55C", "parent") ],
    [ "Brushing teeth (morning & night)", "Tidying up after themselves", "Homework/Reading",
      "Being kind to siblings", "Using good manners" ],
    [ "Playing with us when asked", "Not being grumpy in the morning", "Reading bedtime story with voices",
      "Making our favorite meal", "Taking us somewhere fun" ],
    [ "Mon", "Tue", "Wed", "Thu", "Fri", "Sat", "Sun" ],
    [ Reward("Choose what's for dinner", 20), Reward("Trip to the park with parent", 20),
      Reward("Bike ride adventure", 20), Reward("Game night - child picks game", 20),
      Reward("Bubble play session", 20), Reward("Nature walk & treasure hunt", 20),
      Reward("Build a blanket fort together", 20), Reward("Picnic in garden/park", 22),
      Reward("Choose family movie night film", 25), Reward("Extra 30 minutes stay up late", 25),
      Reward("Arts & crafts session", 25), Reward("Water balloon fight (summer)", 25),
      Reward("Special baking session together", 28), Reward("Library trip + ice cream", 28),
      Reward("Small toy from pound shop", 30) ],
    [ Reward("Kids make you a card/drawing", 15), Reward("Kids tidy the living room", 20),
      Reward("Choose what to watch on TV", 20), Reward("Kids do your chores for the day", 25),
      Reward("Breakfast in bed made by kids", 28), Reward("No nagging from kids for a day", 30),
      Reward("Sleep in on weekend (kids entertain themselves)", 30) ],
    map[], map[], true)

  lemma StartStateHasNoStars()
    ensures forall sec, p: nat :: TotalStars(InitializeStars(InitialChart), sec, p) == 0
  {
    assert InitializeStars(InitialChart) == ResetWeek(InitialChart);
    forall sec, p: nat
      ensures TotalStars(InitializeStars(InitialChart), sec, p) == 0
    {
      ResetWeekZeroTotals(InitialChart, sec, p);
    }
  }

  /** The state the service constructor publishes: the initial chart with its grids filled. */
  function StartState(): (c: Chart)
    ensures forall sec :: WeekRows(StarsOf(c, sec), |MembersOf(c, sec)|, HabitCount(c, sec))
    ensures forall sec, p: nat :: TotalStars(c, sec, p) == 0
  {
    StartStateHasNoStars();
    InitializeStars(InitialChart)
  }
}
