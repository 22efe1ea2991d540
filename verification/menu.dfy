/**
 * The menu resolver: the three rotating menu weeks of spring 2026, their
 * standard and vegetarian meal tables, `determine_menu_week` and
 * `get_meals_for_date`.
 */
module Menu {
  import opened Wrappers
  import opened Calendar
  import opened Text
  import opened DateParse

  datatype Week = Week1 | Week2 | Week3

  /** A weekday name (`"Monday"` .. `"Friday"`) to the meal served that day. */
  type MealTable = map<string, string>

  const StandardWeek1: MealTable := map[
    "Monday" := "Chicken Curry served with Savoury Vegetable Rice",
    "Tuesday" := "Pork Sausage in a Crusty Bun served with Jacket Wedges, Crispy Salad Sticks & a Selection of Sauces",
    "Wednesday" := "Savoury Mince served with Mash Potato & Seasonal Vegetables",
    "Thursday" := "Roast Chicken served with Potatoes, Yorkshire Pudding, Carrots, Cauliflower and Gravy",
    "Friday" := "Fish Fingers or Salmon Fish Fingers served with Chips, Garden Peas or Baked Beans & Ketchup"
  ]

  const StandardWeek2: MealTable := map[
    "Monday" := "Cheese & Potato Pie served with Peas & Sweetcorn",
    "Tuesday" := "Jacket Potato with choice of toppings served with fresh salad",
    "Wednesday" := "Fish Fingers served with Creamy Mash Potato & Spaghetti Hoops",
    "Thursday" := "Roast Gammon served with Roast Potatoes, Carrots, Broccoli, Yorkshire Pudding and Gravy",
    "Friday" := "Chicken Nuggets served with Chips, Garden Peas or Baked Beans & Ketchup"
  ]

  const StandardWeek3: MealTable := map[
    "Monday" := "Meat Wholemeal Pizza served with Baked Baby Potatoes, Peas & Sweetcorn",
    "Tuesday" := "Fish Fillet served with Potato Wedges & Seasonal Vegetables",
    "Wednesday" := "Beef Bolognese served with Spaghetti, Wholemeal Garlic & Herb bread, Seasonal Vegetables",
    "Thursday" := "Roast Pork served with Potatoes, Carrots, Cabbage, Yorkshire Pudding and Gravy",
    "Friday" := "Chicken Burger served with Chips, Garden Peas or Baked Beans & Ketchup"
  ]

  const VegetarianWeek1: MealTable := map[
    "Monday" := "Pasta Twists with Homemade Tomato and Vegetable Sauce served with Fresh Salad and Chunky Bread",
    "Tuesday" := "Quorn Sausage in a Crusty Bun served with Jacket Wedges, Crispy Salad Sticks & a Selection of Sauces",
    "Wednesday" := "Jacket Potato with Choice of Toppings served with Fresh Salad",
    "Thursday" := "Quorn Roast served with Yorkshire Pudding, Carrots, Cauliflower and Gravy",
    "Friday" := "Vegetable Nuggets served with Chips, Garden Peas or Baked Beans & Ketchup"
  ]

  const VegetarianWeek2: MealTable := map[
    "Monday" := "Traditional Macaroni Cheese served with Wholemeal Garlic & Herb bread, Seasonal Vegetables",
    "Tuesday" := "Jacket Potato with Cheese & Beans & Fresh Salad",
    "Wednesday" := "Jacket Potato with Choice of Toppings served with Fresh Salad",
    "Thursday" := "Broccoli & Cauliflower Cheese Bake, Roast Potatoes, Carrots, Broccoli, Yorkshire Pudding and Gravy",
    "Friday" := "Quorn Sausage served with Chips, Garden Peas or Baked Beans & Ketchup"
  ]

  const VegetarianWeek3: MealTable := map[
    "Monday" := "Pasta Twists with Homemade Tomato and Vegetable Sauce served with Fresh Salad and Chunky Bread",
    "Tuesday" := "Crispy Vegetable Bites served with Potatoes Wedges & Seasonal Vegetables",
    "Wednesday" := "Jacket Potato with Choice of Toppings served with Fresh Salad",
    "Thursday" := "Quorn Sausage Roast served with Potatoes, Carrots, Cabbage, Yorkshire Pudding and Gravy",
    "Friday" := "Vegetable Burger served with Chips, Garden Peas or Baked Beans & Ketchup"
  ]

  /** The first day (`dd/mm`, year 2026) of each run of a menu week, in dictionary order. */
  const MenuWeeks2026: seq<(Week, seq<string>)> := [
    (Week1, ["19/01", "09/02", "09/03"]),
    (Week2, ["26/01", "16/02", "16/03"]),
    (Week3, ["02/02", "02/03", "23/03"])
  ]

  /** `LUNCH_MAP`: every week has a standard table. */
  function LunchMap(w: Week): MealTable {
    match w
    case Week1 => StandardWeek1
    case Week2 => StandardWeek2
    case Week3 => StandardWeek3
  }

  /** `VEG_MAP`: every week has a vegetarian table. */
  function VegMap(w: Week): MealTable {
    match w
    case Week1 => VegetarianWeek1
    case Week2 => VegetarianWeek2
    case Week3 => VegetarianWeek3
  }

  /** The (week, start) pairs in the order the nested loops visit them. */
  function Entries(weeks: seq<(Week, seq<string>)>): seq<(Week, string)>
  {
    if |weeks| == 0 then []
    else
      var first := seq(|weeks[0].1|, k requires 0 <= k < |weeks[0].1| => (weeks[0].0, weeks[0].1[k]));
      first + Entries(weeks[1..])
  }

  /** The start date line 110 computes from a `dd/mm` entry. */
  function StartOf(text: string): Option<Date> {
    ParseDmy(text + "/2026")
  }

  /** Every entry names a real date (otherwise `strptime` would raise). */
  predicate StartsParse(entries: seq<(Week, string)>) {
    forall i :: 0 <= i < |entries| ==> StartOf(entries[i].1).Some?
  }

  /** The entries with their start dates parsed. */
  function StartDates(entries: seq<(Week, string)>): (r: seq<(Week, Date)>)
    requires StartsParse(entries)
    ensures |r| == |entries|
    ensures forall i :: 0 <= i < |r| ==>
      r[i].0 == entries[i].0 && Valid(r[i].1) && StartOf(entries[i].1) == Some(r[i].1)
  {
    seq(|entries|, i requires 0 <= i < |entries| => (entries[i].0, StartOf(entries[i].1).value))
  }

  /** `start <= d <= start + timedelta(days=4)`. */
  predicate Covers(start: Date, d: Date)
    requires Valid(start) && Valid(d)
  {
    Ordinal(start) <= Ordinal(d) <= Ordinal(start) + 4
  }

  predicate AllValid(starts: seq<(Week, Date)>) {
    forall i :: 0 <= i < |starts| ==> Valid(starts[i].1)
  }

  /**
   * The week of the first start, in visiting order, whose five-day interval
   * holds `d`; `None` when no interval does.
   */
  function FirstCovering(starts: seq<(Week, Date)>, d: Date): (r: Option<Week>)
    requires AllValid(starts) && Valid(d)
    ensures r.Some? <==> exists i :: 0 <= i < |starts| && Covers(starts[i].1, d)
    ensures r.Some? ==> exists i :: (0 <= i < |starts| && starts[i].0 == r.value
      && Covers(starts[i].1, d)
      && forall j :: 0 <= j < i ==> !Covers(starts[j].1, d))
  {
    if |starts| == 0 then None
    else if Covers(starts[0].1, d) then Some(starts[0].0)
    else
      var r := FirstCovering(starts[1..], d);
      assert forall i :: 1 <= i < |starts| ==> starts[i] == starts[1..][i - 1];
      r
  }

  /** The flattened cycle, in visiting order. */
  const MenuEntries: seq<(Week, string)> := Entries(MenuWeeks2026)

  lemma MenuEntriesAre()
    ensures MenuEntries == [
      (Week1, "19/01"), (Week1, "09/02"), (Week1, "09/03"),
      (Week2, "26/01"), (Week2, "16/02"), (Week2, "16/03"),
      (Week3, "02/02"), (Week3, "02/03"), (Week3, "23/03")]
  {
    var w := MenuWeeks2026;
    assert w[1..][1..][1..] == [];
    assert Entries(w[1..][1..]) == seq(3, k requires 0 <= k < 3 => (Week3, w[2].1[k]));
  }

  /** Line 110 on one entry: a `dd/mm` of digits naming a real 2026 date. */
  lemma StartOfShort(text: string, day: int, month: int)
    requires |text| == 5 && text[2] == '/'
    requires IsDigit(text[0]) && IsDigit(text[1]) && IsDigit(text[3]) && IsDigit(text[4])
    requires day == 10 * DigitValue(text[0]) + DigitValue(text[1])
    requires month == 10 * DigitValue(text[3]) + DigitValue(text[4])
    requires Valid(Date(2026, month, day))
    ensures StartOf(text) == Some(Date(2026, month, day))
  {
    ShortForm(text);
  }

  /** `MENU_WEEKS_2026` with every start read as a date, in visiting order. */
  const CycleStarts: seq<(Week, Date)> := [
    (Week1, Date(2026, 1, 19)), (Week1, Date(2026, 2, 9)), (Week1, Date(2026, 3, 9)),
    (Week2, Date(2026, 1, 26)), (Week2, Date(2026, 2, 16)), (Week2, Date(2026, 3, 16)),
    (Week3, Date(2026, 2, 2)), (Week3, Date(2026, 3, 2)), (Week3, Date(2026, 3, 23))]

  /** Entry `i` of the table parses to the `i`-th listed start. */
  lemma EntryStart(i: int)
    requires 0 <= i < 9
    ensures |MenuEntries| == 9
    ensures MenuEntries[i].0 == CycleStarts[i].0
    ensures StartOf(MenuEntries[i].1) == Some(CycleStarts[i].1)
  {
    MenuEntriesAre();
    var text := MenuEntries[i].1;
    var d := CycleStarts[i].1;
    StartOfShort(text, d.day, d.month);
  }

  /** Every entry of the table parses, and to exactly the dates `CycleStarts` lists. */
  lemma MenuStartsAre()
    ensures StartsParse(MenuEntries)
    ensures StartDates(MenuEntries) == CycleStarts
  {
    forall i | 0 <= i < 9
      ensures StartOf(MenuEntries[i].1) == Some(CycleStarts[i].1)
      ensures MenuEntries[i].0 == CycleStarts[i].0
    {
      EntryStart(i);
    }
    EntryStart(0);
    var r := StartDates(MenuEntries);
    assert forall i :: 0 <= i < 9 ==> r[i] == CycleStarts[i];
  }

  /**
   * `determine_menu_week`: a week is found exactly when some run holds `d`,
   * and it is the week of the first such run in visiting order.
   */
  function DetermineMenuWeek(d: Date): (r: Option<Week>)
    requires Valid(d)
    ensures r.Some? <==> exists i :: 0 <= i < 9 && InRun(i, d)
    ensures r.Some? ==> exists i :: (0 <= i < 9 && CycleStarts[i].0 == r.value
      && InRun(i, d) && forall j :: 0 <= j < i ==> !InRun(j, d))
  {
    CycleCovering(CycleStarts, d);
    FirstCovering(CycleStarts, d)
  }

  /** `FirstCovering` over nine starts, restated with run indices. */
  lemma CycleCovering(starts: seq<(Week, Date)>, d: Date)
    requires starts == CycleStarts && AllValid(starts) && Valid(d)
    ensures var r := FirstCovering(starts, d);
      && (r.Some? <==> exists i :: 0 <= i < 9 && InRun(i, d))
      && (r.Some? ==> exists i :: (0 <= i < 9 && starts[i].0 == r.value
        && InRun(i, d) && forall j :: 0 <= j < i ==> !InRun(j, d)))
  {
    var r := FirstCovering(starts, d);
    assert |starts| == 9;
    assert forall i :: 0 <= i < 9 ==> (InRun(i, d) <==> Covers(starts[i].1, d));
    if r.Some? {
      var i :| (0 <= i < 9 && starts[i].0 == r.value && Covers(starts[i].1, d)
        && forall j :: 0 <= j < i ==> !Covers(starts[j].1, d));
      assert InRun(i, d);
    }
  }

  /** Whether `d` lies in the five-day interval of the `i`-th start. */
  predicate InRun(i: int, d: Date)
    requires 0 <= i < 9 && Valid(d)
  {
    Covers(CycleStarts[i].1, d)
  }

  /** Within one month, the interval `[s, s + 4]` is the five calendar days from `s`. */
  lemma CoversCalendar(s: Date, d: Date)
    requires Valid(s) && Valid(d) && s.day + 4 <= DaysInMonth(s.year, s.month)
    ensures Covers(s, d) <==>
      d.year == s.year && d.month == s.month && s.day <= d.day <= s.day + 4
  {
    var e := Date(s.year, s.month, s.day + 4);
    SameMonthOffset(s, 4);
    OrdinalOrder(s, d);
    OrdinalOrder(d, e);
  }

  /** Every run of the cycle starts on a Monday and stays inside its month. */
  lemma StartsAreMondays(i: int)
    requires 0 <= i < 9
    ensures Weekday(CycleStarts[i].1) == 0
    ensures CycleStarts[i].1.year == 2026
    ensures CycleStarts[i].1.day + 4 <= DaysInMonth(2026, CycleStarts[i].1.month)
  {
    assert DaysBeforeYear(2026) == 739616;
  }

  /** The nine five-day intervals are pairwise disjoint. */
  lemma IntervalsDisjoint(i: int, j: int)
    requires 0 <= i < 9 && 0 <= j < 9 && i != j
    ensures Ordinal(CycleStarts[i].1) + 4 < Ordinal(CycleStarts[j].1)
      || Ordinal(CycleStarts[j].1) + 4 < Ordinal(CycleStarts[i].1)
  {
  }

  /** A date lies in at most one interval of the cycle. */
  lemma RunUnique(i: int, j: int, d: Date)
    requires 0 <= i < 9 && 0 <= j < 9 && Valid(d)
    requires InRun(i, d) && InRun(j, d)
    ensures i == j
  {
    if i != j {
      IntervalsDisjoint(i, j);
    }
  }

  /**
   * `determine_menu_week(d)` is week `w` exactly when `d` lies in the
   * interval of some start listed for `w`, and `None` exactly when it lies
   * in none.
   */
  lemma MenuWeekExact(d: Date, w: Week)
    requires Valid(d)
    ensures DetermineMenuWeek(d) == Some(w) <==>
      exists i :: 0 <= i < 9 && CycleStarts[i].0 == w && InRun(i, d)
    ensures DetermineMenuWeek(d) == None <==> forall i :: 0 <= i < 9 ==> !InRun(i, d)
  {
    var r := DetermineMenuWeek(d);
    if r.Some? {
      var i :| 0 <= i < 9 && CycleStarts[i].0 == r.value && InRun(i, d);
      forall j | 0 <= j < 9 && InRun(j, d) ensures CycleStarts[j].0 == r.value {
        RunUnique(i, j, d);
      }
    }
  }

  /** A date lies in the `i`-th run exactly when it is one of its five calendar days. */
  lemma InRunCalendar(i: int, d: Date)
    requires 0 <= i < 9 && Valid(d)
    ensures var s := CycleStarts[i].1;
      InRun(i, d) <==> d.year == 2026 && d.month == s.month && s.day <= d.day <= s.day + 4
  {
    StartsAreMondays(i);
    CoversCalendar(CycleStarts[i].1, d);
  }

  /** No date of any other year has a menu week. */
  lemma OtherYearsHaveNoWeek(d: Date)
    requires Valid(d) && d.year != 2026
    ensures DetermineMenuWeek(d) == None
  {
    forall i | 0 <= i < 9 ensures !InRun(i, d) {
      InRunCalendar(i, d);
    }
    MenuWeekExact(d, Week1);
  }

  /** The half-term break, 21 February to 1 March 2026, has no menu week. */
  lemma HalfTermHasNoWeek(d: Date)
    requires Valid(d) && d.year == 2026
    requires (d.month == 2 && 21 <= d.day) || (d.month == 3 && d.day == 1)
    ensures DetermineMenuWeek(d) == None
  {
    forall i | 0 <= i < 9 ensures !InRun(i, d) {
      InRunCalendar(i, d);
    }
    MenuWeekExact(d, Week1);
  }

  /** Nothing before 19 January 2026 or after 27 March 2026 has a menu week. */
  lemma OutsideTermHasNoWeek(d: Date)
    requires Valid(d)
    requires Before(d, Date(2026, 1, 19)) || Before(Date(2026, 3, 27), d)
    ensures DetermineMenuWeek(d) == None
  {
    if Before(d, Date(2026, 1, 19)) {
      BeforeOrdinal(d, Date(2026, 1, 19));
    } else {
      BeforeOrdinal(Date(2026, 3, 27), d);
    }
    forall i | 0 <= i < 9 ensures !InRun(i, d) {
      RunInTerm(i);
    }
    MenuWeekExact(d, Week1);
  }

  /** Every run lies between 19 January and 27 March 2026. */
  lemma RunInTerm(i: int)
    requires 0 <= i < 9
    ensures Ordinal(Date(2026, 1, 19)) <= Ordinal(CycleStarts[i].1)
    ensures Ordinal(CycleStarts[i].1) + 4 <= Ordinal(Date(2026, 3, 27))
  {
  }

  /** The pair `get_meals_for_date` returns: standard meal, vegetarian meal. */
  datatype Meals = Meals(standard: Option<string>, vegetarian: Option<string>)

  const WorkingDays: set<string> := {"Monday", "Tuesday", "Wednesday", "Thursday", "Friday"}

  /** Both tables of every week are keyed by exactly the five working days. */
  lemma TablesComplete(w: Week)
    ensures LunchMap(w).Keys == WorkingDays && VegMap(w).Keys == WorkingDays
  {
    match w
    case Week1 => StandardWeek1Keys(); VegetarianWeek1Keys();
    case Week2 => StandardWeek2Keys(); VegetarianWeek2Keys();
    case Week3 => StandardWeek3Keys(); VegetarianWeek3Keys();
  }

  /** The names `strftime("%A")` gives Monday to Friday are the working days. */
  lemma WorkingDayNames()
    ensures forall k :: 0 <= k < 5 ==> DayNames[k] in WorkingDays
  {
  }

  lemma StandardWeek1Keys() ensures StandardWeek1.Keys == WorkingDays {}
  lemma StandardWeek2Keys() ensures StandardWeek2.Keys == WorkingDays {}
  lemma StandardWeek3Keys() ensures StandardWeek3.Keys == WorkingDays {}
  lemma VegetarianWeek1Keys() ensures VegetarianWeek1.Keys == WorkingDays {}
  lemma VegetarianWeek2Keys() ensures VegetarianWeek2.Keys == WorkingDays {}
  lemma VegetarianWeek3Keys() ensures VegetarianWeek3.Keys == WorkingDays {}

  /**
   * `get_meals_for_date`: nothing at weekends or outside every run,
   * otherwise the weekday's entry of the week's two tables.
   */
  function GetMealsForDate(d: Date): (r: Meals)
    requires Valid(d)
    ensures r.standard.Some? <==> r.vegetarian.Some?
    ensures r.standard.Some? <==> Weekday(d) < 5 && DetermineMenuWeek(d).Some?
  {
    if Weekday(d) >= 5 then Meals(None, None)
    else
      match DetermineMenuWeek(d)
      case None => Meals(None, None)
      case Some(w) =>
        var name := WeekdayName(d);
        TablesComplete(w);
        WorkingDayNames();
        Meals(Get(LunchMap(w), name), Get(VegMap(w), name))
  }

  /** On weekday `k` of menu week `w` both tables' entries for that day are served. */
  lemma MealsOfWeekday(d: Date, w: Week, k: int)
    requires Valid(d) && 0 <= k < 5 && Weekday(d) == k && DetermineMenuWeek(d) == Some(w)
    ensures GetMealsForDate(d) == Meals(Get(LunchMap(w), DayNames[k]), Get(VegMap(w), DayNames[k]))
    ensures GetMealsForDate(d).standard.Some? && GetMealsForDate(d).vegetarian.Some?
    ensures DayNames[k] in LunchMap(w) && DayNames[k] in VegMap(w)
  {
    TablesComplete(w);
    WorkingDayNames();
    assert WeekdayName(d) == DayNames[k];
  }

  /** Day `k` of the `i`-th run is a valid weekday `k` of the run's menu week. */
  lemma RunDayWeek(i: int, k: int)
    requires 0 <= i < 9 && 0 <= k < 5
    ensures var s := CycleStarts[i].1;
      var d := Date(2026, s.month, s.day + k);
      && Valid(d) && Weekday(d) == k && DetermineMenuWeek(d) == Some(CycleStarts[i].0)
  {
    var s := CycleStarts[i].1;
    var d := Date(2026, s.month, s.day + k);
    var w := CycleStarts[i].0;
    StartsAreMondays(i);
    SameMonthOffset(s, k);
    assert Weekday(d) == k;
    InRunCalendar(i, d);
    MenuWeekExact(d, w);
    assert DetermineMenuWeek(d) == Some(w);
  }

  /** Day `k` of the `i`-th run: a valid weekday `k` of the run's menu week. */
  function RunDay(i: int, k: int): (d: Date)
    requires 0 <= i < 9 && 0 <= k < 5
    ensures Valid(d) && Weekday(d) == k && DetermineMenuWeek(d) == Some(CycleStarts[i].0)
  {
    RunDayWeek(i, k);
    Date(2026, CycleStarts[i].1.month, CycleStarts[i].1.day + k)
  }

  /**
   * Day `k` of the `i`-th run is served weekday `k`'s entries of both tables
   * of the run's week, and both are present.
   */
  lemma RunDayMeals(i: int, k: int)
    requires 0 <= i < 9 && 0 <= k < 5
    ensures var w := CycleStarts[i].0;
      GetMealsForDate(RunDay(i, k)) == Meals(Get(LunchMap(w), DayNames[k]), Get(VegMap(w), DayNames[k]))
    ensures DayNames[k] in LunchMap(CycleStarts[i].0) && DayNames[k] in VegMap(CycleStarts[i].0)
  {
    MealsOfWeekday(RunDay(i, k), CycleStarts[i].0, k);
  }

  /** Monday 19 January 2026 is the first day of Week 1. */
  lemma FirstDayOfTerm()
    ensures GetMealsForDate(Date(2026, 1, 19)) == Meals(
      Some("Chicken Curry served with Savoury Vegetable Rice"),
      Some("Pasta Twists with Homemade Tomato and Vegetable Sauce served with Fresh Salad and Chunky Bread"))
  {
    var d := Date(2026, 1, 19);
    RunDayWeek(0, 0);
    assert CycleStarts[0] == (Week1, d);
    MealsOfWeekday(d, Week1, 0);
    assert DayNames[0] == "Monday";
    Week1Monday();
  }

  lemma Week1Monday()
    ensures Get(LunchMap(Week1), "Monday") == Some("Chicken Curry served with Savoury Vegetable Rice")
    ensures Get(VegMap(Week1), "Monday") == Some("Pasta Twists with Homemade Tomato and Vegetable Sauce served with Fresh Salad and Chunky Bread")
  {
  }

  /** Saturdays, Sundays and weekdays outside every run get no meals at all. */
  lemma NoMealsOutsideRuns(d: Date)
    requires Valid(d)
    requires Weekday(d) >= 5 || forall i :: 0 <= i < 9 ==> !InRun(i, d)
    ensures GetMealsForDate(d) == Meals(None, None)
  {
    MenuWeekExact(d, Week1);
  }
}
