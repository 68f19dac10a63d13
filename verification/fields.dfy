/** The six measures of time of a cron expression, their names and bounds. */
module Fields {
  import opened Outcomes

  datatype Field = Minute | Hour | DayOfTheMonth | MonthOfTheYear | DayOfTheWeek | Year

  /** Output and positional order of the fields. */
  const Order: seq<Field> := [Minute, Hour, DayOfTheMonth, MonthOfTheYear, DayOfTheWeek, Year]

  const FieldCount: nat := 6

  /** The property name the library uses for a field. */
  function Name(f: Field): string
  {
    match f
    case Minute => "minute"
    case Hour => "hour"
    case DayOfTheMonth => "dayOfTheMonth"
    case MonthOfTheYear => "monthOfTheYear"
    case DayOfTheWeek => "dayOfTheWeek"
    case Year => "year"
  }

  /** Looking a name up in the bounds table: the field it names, if any. */
  function FieldOf(name: string): (r: Option<Field>)
    ensures r.Some? ==> Name(r.value) == name
    ensures forall f :: Name(f) == name ==> r == Some(f)
  {
    if name == "minute" then Some(Minute)
    else if name == "hour" then Some(Hour)
    else if name == "dayOfTheMonth" then Some(DayOfTheMonth)
    else if name == "monthOfTheYear" then Some(MonthOfTheYear)
    else if name == "dayOfTheWeek" then Some(DayOfTheWeek)
    else if name == "year" then Some(Year)
    else None
  }

  /** Position of a field in `Order`. */
  function Index(f: Field): (i: nat)
    ensures i < FieldCount && Order[i] == f
  {
    match f
    case Minute => 0
    case Hour => 1
    case DayOfTheMonth => 2
    case MonthOfTheYear => 3
    case DayOfTheWeek => 4
    case Year => 5
  }

  /** Every field occurs in the fixed order. */
  lemma OrderCoversFields()
    ensures forall f: Field :: f in Order
  {
    forall f: Field ensures f in Order {
      assert Order[Index(f)] == f;
    }
  }

  /** No field occurs twice in the fixed order. */
  lemma OrderDistinct()
    ensures forall i, j :: 0 <= i < j < FieldCount ==> Order[i] != Order[j]
  {
    forall i | 0 <= i < FieldCount ensures Index(Order[i]) == i { }
  }

  /** Name of the field at a position of a space-separated expression. */
  function PositionName(i: nat): string
    requires i < FieldCount
  {
    Name(Order[i])
  }

  function Min(f: Field): nat
  {
    match f
    case Minute => 0
    case Hour => 0
    case DayOfTheMonth => 1
    case MonthOfTheYear => 1
    case DayOfTheWeek => 1
    case Year => 1900
  }

  function Max(f: Field): nat
  {
    match f
    case Minute => 59
    case Hour => 23
    case DayOfTheMonth => 31
    case MonthOfTheYear => 12
    case DayOfTheWeek => 7
    case Year => 3000
  }
}
