# Carousel paging and calendar date-picker of a mechanic's booking website

The site's script (`js/main.js`) wires up a number of small widgets. Two of
them keep state and follow precise rules, and they are what this Dafny
project models:

- **The testimonial carousel.** Its state is a page index and a page size.
  The page size is 1, 2 or 3 cards, depending on the viewport width
  (breakpoints at 768 and 1024 pixels). "Next" and "previous" stop at the
  ends instead of wrapping. A resize that changes the page size goes back to
  index 0. Module `Carousel`: the class `TestimonialCarousel` holds the two
  fields. Its handlers are proved against the pure step functions `Next`,
  `Prev` and `Resize` on `Position` values. The number of cards and the
  viewport width are parameters.
- **The calendar date-picker.** Its state is the displayed month (0..11, as
  JavaScript numbers months) and year. It renders a grid of 7 weekday labels,
  then one blank cell per weekday before the 1st, then one cell per day. A day
  before today is disabled and has no click handler. Clicking a day writes
  `year-MM-DD` into the booking form's date field. The "previous month" and
  "next month" buttons wrap around the year.
  - Module `Calendar`: the class `DatePicker`, the grid builder `RenderGrid`
    (three loops, as in the source), the navigation functions and the grid
    lemmas.
  - Module `Gregorian`: the leap-year rule, month lengths, a day count from
    0001-01-01 and the weekday derived from it. These replace the JavaScript
    `Date` object with explicit proleptic-Gregorian arithmetic.
  - Module `IsoDate`: `String(n)`, `padStart(2, '0')`, the date string, and a
    reader that proves the string can be read back unambiguously.

"Today" is a parameter (a `Gregorian.Date`) wherever the source reads the
clock. The grid is a sequence of `Cell` values (`Label`, `Blank`,
`Day(number, disabled)`) rather than DOM elements.

Points where the code's exact behaviour, which the model follows, differs
from a plain description of the widgets:

- The carousel's upper bound is `max(0, cards − cardsPerView)`, not
  `cards − cardsPerView`. When there are fewer cards than one page holds, the
  code's bound is negative and "next" does nothing. The index stays at 0.
- JavaScript's `new Date(year, month, day)` reads a year in 0..99 as
  1900..1999. Every date the picker builds from its displayed year goes
  through `Calendar.JsYear`. So the grid, the past-date check and the written
  string of a displayed year 0..99 are those of year 1900 + year. For that
  reason `NextMonthStartingDay` excludes the two year boundaries where this
  reading jumps.
- The year in the date string is not padded. For four-digit years the string
  is an ISO 8601 extended calendar date, which is also `full-date` from
  section 5.6 of RFC 3339 (`FourDigitYearIsFullDate`), and for no other year
  is it one (`FullDateIffFourDigitYear`). For years 0..999 and −99..−1 the
  string is shorter than 10 characters (`ShortYearIsNotFullDate`); for years
  −999..−100 it has 10 characters but a minus sign where the first digit
  belongs; for years ≤ −1000 (`NegativeYearIsLonger`) and ≥ 10000 it is
  longer.
- `selectDate` removes the "selected" mark from every cell and never adds it
  to the clicked one. The model keeps this: `selected` is `{}` after every
  selection.

## Model

| member | source | states |
|---|---|---|
| `Carousel.CardsPerView` | js/main.js:116-120 | the page size is in 1..3: 1 exactly when width ≤ 768, 2 exactly when 768 < width ≤ 1024, 3 exactly when width > 1024 |
| `Carousel.Next` | js/main.js:135-141 | "next" keeps the page size; it is a no-op exactly when index ≥ cards − perView, otherwise it moves forward by one; it preserves `InRange` |
| `Carousel.Prev` | js/main.js:143-148 | "previous" keeps the page size; it is a no-op exactly when index ≤ 0, otherwise it moves back by one; a non-negative index stays non-negative and `InRange` is preserved |
| `Carousel.Resize` | js/main.js:153-160 | after a resize the page size is the one for the new width; the state is unchanged exactly when the page size is unchanged, otherwise the index is 0; `InRange` is preserved |
| `Carousel.NextTimesSaturates` | js/main.js:135-141 | k presses of "next" from a valid state reach min(index + k, max(0, cards − perView)) and stay in range |
| `Carousel.NextAtEndIsIdempotent` | js/main.js:135-141 | at the last index, "next" and any number of further presses change nothing |
| `Carousel.PrevTimesSaturates` | js/main.js:143-148 | k presses of "previous" reach max(index − k, 0), and the index never goes negative |
| `Carousel.NextPrevInverse` | js/main.js:135-148 | "previous" undoes a "next" that moved; "next" undoes a "previous" that moved |
| `Carousel.TestimonialCarousel.constructor` | js/main.js:113-114 | the carousel starts at index 0 with the page size for the initial width, in range for any number of cards |
| `Carousel.TestimonialCarousel.NextSlide` | js/main.js:135-141 | the new state is `Next` of the old one; the range invariant is kept |
| `Carousel.TestimonialCarousel.PrevSlide` | js/main.js:143-148 | the new state is `Prev` of the old one; the range invariant is kept |
| `Carousel.TestimonialCarousel.OnResize` | js/main.js:153-160 | the new state is `Resize` of the old one; the range invariant is kept |
| `Gregorian.DaysInMonth` | js/main.js:258-260 | a month has 28..31 days: 29 exactly for February of a leap year, 28 exactly for February otherwise, 30 exactly for April, June, September and November |
| `Gregorian.DayOfWeek` | js/main.js:257-259 | the weekday is in 0..6 (that 0 is Sunday follows from `KnownWeekdays` together with `WeekdayOfDay` and `WeekdayOfFollowingMonth`) |
| `Gregorian.YearLengthStep` | js/main.js:257-260 | consecutive years' first days are 366 days apart in a leap year and 365 otherwise |
| `Gregorian.MonthStep` | js/main.js:258-260 | the cumulative-days table agrees with the month lengths, and the twelve months make up the year's length |
| `Gregorian.FirstOfFollowingMonth` | js/main.js:257-260 | the first of the next month (January of the next year after December) is the month's length in days later |
| `Gregorian.WeekdayOfDay` | js/main.js:283-289 | day d of a month falls on weekday (weekday of the 1st + d − 1) mod 7 |
| `Gregorian.WeekdayOfFollowingMonth` | js/main.js:257-260 | the next month starts on (this month's starting weekday + its length) mod 7 |
| `Gregorian.DaysBeforeYearMonotone` | js/main.js:289-290 | a later year starts at least 365 days per year later |
| `Gregorian.PrecedesIffEarlier` | js/main.js:289-290 | for valid dates, comparing day counts (as the source compares midnight timestamps) is exactly chronological order by year, month and day |
| `Gregorian.KnownWeekdays` | js/main.js:257-260 | 1970-01-01 and 2024-02-01 are Thursdays, February 2024 has 29 days, and 2025-03-15 is a Saturday |
| `IsoDate.NatToDecimal` | js/main.js:305-306 | `String(n)` is a non-empty run of digits with no leading zero; one digit exactly below 10, two exactly for 10..99 |
| `IsoDate.IntToDecimal` | js/main.js:308 | `String(year)` is non-empty: the digits of a non-negative year, or a minus sign followed by the digits of −year |
| `IsoDate.TwoDigits` | js/main.js:305-306 | the padded month or day is exactly two digits |
| `IsoDate.TwoDigitsValue` | js/main.js:305-306 | the two digits denote the number they were made from |
| `IsoDate.PadStart2` | js/main.js:305-306 | `padStart(2, '0')` leaves strings of length ≥ 2 alone; shorter ones get zeros in front up to length 2 |
| `IsoDate.FormatDate` | js/main.js:304-308 | the date string is the year's text followed by `-MM-DD`: six more characters, hyphens in the two separator positions, two digits each for month and day |
| `IsoDate.DecimalRoundTrip` | js/main.js:305-306 | reading the digits of `String(n)` gives back n |
| `IsoDate.FormatRoundTrip` | js/main.js:302-308 | reading the date string gives back the year, month and day it was made from, negative years included |
| `IsoDate.FormatInjective` | js/main.js:302-308 | two different dates never give the same date string |
| `IsoDate.FourDigitYearIsFullDate` | js/main.js:303-308 | for years 1000..9999 the string is an ISO 8601 / RFC 3339 `full-date`: YYYY-MM-DD with month 01..12 and day 01..31 |
| `IsoDate.FullDateIffFourDigitYear` | js/main.js:302-308 | the string is a `full-date` exactly when the year is in 1000..9999 |
| `IsoDate.ShortYearIsNotFullDate` | js/main.js:304-308 | the year is not padded: year 999 gives `999-01-05`, which is not a `full-date` |
| `IsoDate.NegativeYearIsLonger` | js/main.js:304-308 | a negative year keeps its minus sign: year −1000 gives `-1000-01-01`, 11 characters |
| `IsoDate.FormatExample` | js/main.js:300-308 | the 15th of March 2025 gives `2025-03-15` |
| `Calendar.JsYear` | js/main.js:257-258 | a year in 0..99 is read as 1900 + year, any other year as itself; the result is never in 0..99 |
| `Calendar.IsPast` | js/main.js:289-290 | for a day of the displayed month and a valid today, the midnight comparison is exactly "strictly before today" in calendar order, on the year as `new Date` reads it |
| `Calendar.IsGrid` | js/main.js:266-297 | a grid of the required layout has 7 + startingDay + monthLength cells and starts with the labels Sun..Sat |
| `Calendar.StartingDay` | js/main.js:257-259 | the number of leading blanks, the weekday of the 1st, is in 0..6 |
| `Calendar.MonthLength` | js/main.js:258-260 | the number of day cells is in 28..31 |
| `Calendar.RenderGrid` | js/main.js:256-298 | the grid has 7 labels Sun..Sat, then `startingDay` blanks, then days 1..monthLength in order, each disabled exactly when it is before today; so 7 + startingDay + monthLength cells |
| `Calendar.PrevMonth` | js/main.js:315-325 | "previous month" leaves the month in 0..11 and the month count 12·year + month one less |
| `Calendar.NextMonth` | js/main.js:327-337 | "next month" leaves the month in 0..11 and the month count 12·year + month one more |
| `Calendar.YearWrap` | js/main.js:315-337 | "previous" from January gives December of year − 1; "next" from December gives January of year + 1 |
| `Calendar.NavigationRoundTrip` | js/main.js:315-337 | "next" after "previous", and "previous" after "next", restore the original (year, month) |
| `Calendar.NextMonthStartingDay` | js/main.js:256-260 | after "next month" the grid starts on (old starting weekday + old month length) mod 7, except where the 0..99 year reading jumps |
| `Calendar.GridIsUnique` | js/main.js:256-298 | the grid layout pins the cells down completely: two grids for the same month and today are equal |
| `Calendar.GridDays` | js/main.js:283-297 | every day cell holds a day in 1..monthLength, and day i sits at index 6 + startingDay + i |
| `Calendar.DayColumnIsWeekday` | js/main.js:266-297 | in the 7-column grid, each day cell's column is that day's weekday |
| `Calendar.February2024` | js/main.js:256-298 | February 2024 renders 4 blanks and 29 day cells, 40 cells in all, with the 1st at index 11 and the 29th at index 39 |
| `Calendar.DatePicker.constructor` | js/main.js:252-254 | on page load the picker shows today's month and year, with that month's grid rendered and no cell marked |
| `Calendar.DatePicker.UpdateCalendar` | js/main.js:256-298 | re-rendering replaces the grid with the one for the displayed month and removes all marks |
| `Calendar.DatePicker.PrevMonthClicked` | js/main.js:315-325 | the (year, month) becomes `PrevMonth` of the old one and that month's grid is rendered; the date field is untouched |
| `Calendar.DatePicker.NextMonthClicked` | js/main.js:327-337 | the (year, month) becomes `NextMonth` of the old one and that month's grid is rendered; the date field is untouched |
| `Calendar.DatePicker.SelectDate` | js/main.js:300-313 | the date field receives `FormatDate(year, month + 1, day)` and no cell keeps or gains the "selected" mark |
| `Calendar.DatePicker.ClickCell` | js/main.js:288-294 | a click selects a cell's day exactly when it is a day cell that is not disabled; any other click changes nothing |

## Left out

- Everything in `js/main.js` outside the carousel and the calendar: the
  mobile menu, the scroll thresholds, smooth scrolling, back-to-top, the FAQ
  toggles, the stats counter (floating-point steps timed by animation frames),
  the chat widget (timers, focus, and browser HTML escaping) and the booking
  form stub (`FormData`, `alert`, `toLocaleString`). These are DOM plumbing,
  timing or foreign calls.
- `updateCarousel`'s CSS output (`flex` basis and `translateX` percentages):
  presentation only.
- The month heading, which comes from locale-dependent `toLocaleString`.
- The system clock: "today" is an input to every render.
- The DOM itself: element creation, class lists and event-listener
  registration are modelled as the `cells` sequence, the `selected` set and
  `ClickCell`.
- A missing date-input element (`if(dateInput)`): the model always has a date
  field and always writes to it.
- The range limit of JavaScript dates (about 275,000 years from 1970), beyond
  which `Date` is invalid: the model's years are unbounded.
- Local time and daylight saving: the source compares local midnights, which
  order the same way as the day counts the model compares.
