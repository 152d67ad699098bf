/**
  Pantry items and saved lists. Dates are epoch days; "today" is a parameter
  wherever the app reads the system clock.
 */
module Inventory {
  import opened Calendar

  /**
    One pantry item. Equality is structural over all six fields, as for a
    Kotlin data class.
   */
  datatype InventoryItem = InventoryItem(
    id: int,
    name: string,
    code: string,
    expDate: Date,
    quantity: int,
    daysNotice: int)
  {
    /** The first day of the "expiring soon" window. */
    function ExpSoonDate(): (d: Date)
      ensures DaysBetween(d, expDate) == daysNotice
    {
      expDate - daysNotice
    }

    /** Days from `today` to the expiration date (negative once it has passed). */
    function DaysUntilExpiration(today: Date): (n: int)
      ensures today + n == expDate
    {
      DaysBetween(today, expDate)
    }

    /** Expired on the expiration day itself and every day after it. */
    predicate IsExpired(today: Date)
      ensures IsExpired(today) <==> DaysUntilExpiration(today) <= 0
    {
      expDate <= today
    }

    /** Not yet expired, but inside the notice window. */
    predicate IsExpiringSoon(today: Date)
      ensures IsExpiringSoon(today) ==> !IsExpired(today)
      ensures IsExpiringSoon(today) <==> 0 < DaysUntilExpiration(today) <= daysNotice
    {
      !IsExpired(today) && ExpSoonDate() <= today
    }
  }

  /**
    A saved list. A file written before the flag existed decodes with
    `perishable` false, the field's default.
   */
  datatype InventoryList = InventoryList(perishable: bool, items: seq<InventoryItem>)
}
