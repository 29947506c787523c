/** Overdue and aging: a string comparison and a day count that must never disagree. */
module Aging {
  import opened Options
  import opened Calendar
  import opened Text

  datatype InvoiceStatus = Draft | Issued | PartiallyPaid | Paid | Cancelled

  datatype Bucket = Current | D0To30 | D31To60 | D61To90 | Over90

  function Rank(b: Bucket): nat {
    match b
    case Current => 0
    case D0To30 => 1
    case D31To60 => 2
    case D61To90 => 3
    case Over90 => 4
  }

  type CalendarDate = d: Date | Valid(d) witness Date(1970, 1, 1)

  /** `isOverdue`: compares the due date with today as text. */
  predicate IsOverdue(due: Option<CalendarDate>, outstanding: int, status: InvoiceStatus, asOf: CalendarDate) {
    && due.Some?
    && status != Draft && status != Cancelled && status != Paid
    && outstanding > 0
    && Less(IsoText(due.value), IsoText(asOf))
  }

  /** `daysPastDue`: subtracts day numbers. */
  function DaysPastDue(due: Option<CalendarDate>, asOf: CalendarDate): int {
    if due.None? then 0 else DayNumber(asOf) - DayNumber(due.value)
  }

  function BucketFor(days: int): Bucket {
    if days <= 0 then Current
    else if days <= 30 then D0To30
    else if days <= 60 then D31To60
    else if days <= 90 then D61To90
    else Over90
  }

  function BucketForInvoice(due: Option<CalendarDate>, asOf: CalendarDate): Bucket {
    BucketFor(DaysPastDue(due, asOf))
  }

  /** The three tests agree: overdue is exactly a past-due bucket on an invoice that can owe money. */
  lemma OverdueAgreesWithAging(due: Option<CalendarDate>, outstanding: int, status: InvoiceStatus, asOf: CalendarDate)
    ensures DaysPastDue(due, asOf) > 0 <==> BucketForInvoice(due, asOf) != Current
    ensures IsOverdue(due, outstanding, status, asOf)
            <==> BucketForInvoice(due, asOf) != Current && outstanding > 0 && status in {Issued, PartiallyPaid}
  {
    if due.Some? {
      TextOrderIsDayOrder(due.value, asOf);
    }
  }

  /** Each bucket holds exactly its days past due: none, up to 30, 60 and 90, and all beyond. */
  lemma BucketLimits(due: CalendarDate, asOf: CalendarDate)
    ensures var late, bucket := DayNumber(asOf) - DayNumber(due), BucketForInvoice(Some(due), asOf);
            && (bucket == Current <==> late <= 0)
            && (bucket == D0To30 <==> 1 <= late <= 30)
            && (bucket == D31To60 <==> 31 <= late <= 60)
            && (bucket == D61To90 <==> 61 <= late <= 90)
            && (bucket == Over90 <==> late >= 91)
    ensures BucketForInvoice(None, asOf) == Current
  {
  }

  /** The bucket never moves back as the as-of date advances, dates compared as text. */
  lemma BucketNeverMovesBack(due: Option<CalendarDate>, a: CalendarDate, b: CalendarDate)
    requires !Less(IsoText(b), IsoText(a))
    ensures DaysPastDue(due, a) <= DaysPastDue(due, b)
    ensures Rank(BucketForInvoice(due, a)) <= Rank(BucketForInvoice(due, b))
  {
    TextOrderIsDayOrder(b, a);
  }

  /** An invoice due today is not overdue, tomorrow it is one day past due. */
  lemma DueTomorrow(due: CalendarDate)
    requires Valid(NextDay(due))
    ensures DaysPastDue(Some(due), due) == 0 && DaysPastDue(Some(due), NextDay(due)) == 1
    ensures !Less(IsoText(due), IsoText(due)) && Less(IsoText(due), IsoText(NextDay(due)))
  {
    DayNumbersCountDays(due);
    TextOrderIsDayOrder(due, due);
    TextOrderIsDayOrder(due, NextDay(due));
  }
}
