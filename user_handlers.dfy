// The Portuguese day and month names of the user dashboard.

module UserHandlers {
  /** `chrono::Weekday`. */
  datatype Weekday = Mon | Tue | Wed | Thu | Fri | Sat | Sun

  /** The month number the formatter passes (`u32`). */
  newtype U32 = x: int | 0 <= x < 0x1_0000_0000

  /** `weekday_to_pt`: every weekday has a non-empty name. */
  function WeekdayToPt(wd: Weekday): (r: string)
    ensures r != []
  {
    match wd
    case Mon => "Segunda"
    case Tue => "Terça"
    case Wed => "Quarta"
    case Thu => "Quinta"
    case Fri => "Sexta"
    case Sat => "Sábado"
    case Sun => "Domingo"
  }

  /** Seven weekdays, seven different names. */
  lemma WeekdayToPtInjective(a: Weekday, b: Weekday)
    requires WeekdayToPt(a) == WeekdayToPt(b)
    ensures a == b
  {
  }

  /** `month_to_pt`: a three-letter name for 1 to 12, the empty string for any other number. */
  function MonthToPt(m: U32): (r: string)
    ensures r != [] <==> 1 <= m <= 12
    ensures r != [] ==> |r| == 3
  {
    match m
    case 1 => "Jan"
    case 2 => "Fev"
    case 3 => "Mar"
    case 4 => "Abr"
    case 5 => "Mai"
    case 6 => "Jun"
    case 7 => "Jul"
    case 8 => "Ago"
    case 9 => "Set"
    case 10 => "Out"
    case 11 => "Nov"
    case 12 => "Dez"
    case _ => ""
  }

  /** Different months have different names. */
  lemma MonthToPtInjective(a: U32, b: U32)
    requires 1 <= a <= 12 && 1 <= b <= 12
    requires MonthToPt(a) == MonthToPt(b)
    ensures a == b
  {
  }
}
