# Content calendar: the IST time engine and the components around it

This project models in Dafny the logic of a Next.js content calendar for
LinkedIn and Twitter posts. Posts carry a UTC `scheduledAt` instant. The
app shows and edits them in Indian Standard Time (UTC+05:30), whatever time
zone the browser's host is in.

- **IST helpers** (`src/lib/dateUtils.ts`, module `DateUtils`). These are
  convertToIST, isSameDayIST, isToday, the week and month windows, the
  start and end of a day, createISTDateTime and the input formatters.
  JavaScript `Date` values are modelled as integer milliseconds. The
  calendar arithmetic of ECMA-262 section 21.4.1 is written out
  (`TimeMath`, `JsDate`): Day, MakeDay, YearFromTime, LocalTime with the
  host offset. `new Date(string)` and toISOString are modelled in
  `IsoFormat`. The current time `now` and the host offset `H` (minutes,
  as getTimezoneOffset() returns it) are parameters. Every property is
  stated for all H, or for H = 0 where the code is only exact there.
- **Calendar** (`src/components/CalendarView.tsx`). It covers
  navigation, the week strip and the 42-cell month grid (built by
  mutating `Date` objects in loops), the posts of a cell, and the day view's
  sort and hour rows. It also covers the hour labels and the month cell's
  three-post cap.
- **Statistics and dashboard** (`CalendarStats.tsx`, `Dashboard.tsx`,
  `useKeyboardNavigation.ts`). These are the three statistics cards, the
  status filter and tab counts, and the keyboard shortcuts. The Dashboard
  state is a class whose handlers keep the invariant "an edited post
  implies an open form".
- **Forms and dialogs** (`PostForm.tsx`, `PostModal.tsx`,
  `ImageUpload.tsx`, `src/app/reset-password/page.tsx`). These are the
  React state of each form as a class, the submit guards and what the
  callbacks receive.
- **Services and views** (`postsService.ts`, `imageService.ts`,
  `IdeaBacklog.tsx`, `AssetLibrary.tsx`, `PostQuickView.tsx`). These are
  the row mappings and their round trips, the public-id extraction, the
  backlog sort (a stable insertion sort, proved sorted, a permutation and
  stable), the tag filter and the quick view's derived strings.

The point of the time model is the host offset. Each helper shifts by
330 minutes and then reads host-local fields. So several helpers are
exact only on a UTC host, and the lemmas state by how much they move
elsewhere. Three examples:

- `DateUtils.CreateISTDateTimeHostShift`: createISTDateTime moves by H
  minutes.
- `PostForm.EditSaveUnchanged`: saving an edited post unchanged moves it
  by H minutes.
- `DateUtils.IsTodayDoubleShift` and `CalendarStats.TodayInWeekUtcHost`:
  isToday and isThisWeekIST compare against a current time that is
  converted twice.

## Model

| member | source | states |
|---|---|---|
| DateUtils.GetCurrentISTTime | src/lib/dateUtils.ts:7-11 | the host-local reading of the result is the current instant plus 5 h 30 min, whatever the host offset |
| DateUtils.ConvertToIST | src/lib/dateUtils.ts:16-26 | an unparseable input gives the current time; otherwise the host-local reading of the result is the input plus 330 minutes, for every host offset H |
| DateUtils.ISTRollover | src/lib/dateUtils.ts:2 | the IST date of a UTC instant is its UTC date before 18:30 UTC and the next date from 18:30 on, with the clock 330 minutes later |
| DateUtils.GetISTHour | src/lib/dateUtils.ts:183-186 | the result lies in 0..23 and is the hour of the input plus 5.5 h |
| DateUtils.GetISTDay | src/lib/dateUtils.ts:191-194 | the result lies in 1..31 and is the day of month of the input plus 5.5 h |
| DateUtils.GetISTMonth | src/lib/dateUtils.ts:199-202 | the result lies in 0..11 and is the month of the input plus 5.5 h |
| DateUtils.GetISTYear | src/lib/dateUtils.ts:207-210 | the result is the year of the input plus 5.5 h |
| DateUtils.IsSameDayIST | src/lib/dateUtils.ts:154-170 | isSameDayIST holds iff both converted instants fall on the same host-local day, for every input, readable or not |
| DateUtils.SameFieldsSameDay | src/lib/dateUtils.ts:159-163 | equal year, month and day of month hold exactly when the day numbers are equal |
| DateUtils.SameDayISTIff | src/lib/dateUtils.ts:154-170 | for readable inputs, isSameDayIST holds iff both inputs fall on the same IST day, whatever H is |
| DateUtils.SameDayISTReflexiveSymmetric | src/lib/dateUtils.ts:154-170 | isSameDayIST is reflexive and symmetric |
| DateUtils.SameDayISTAcrossMidnight | src/lib/dateUtils.ts:154-170 | 18:29Z and 18:31Z of the same UTC date are not the same IST day |
| DateUtils.IsToday | src/lib/dateUtils.ts:215-218 | isToday holds iff the input's converted local day is the day of now + H minutes + 11 h: the current IST time is shifted twice |
| DateUtils.IsTodayDoubleShift | src/lib/dateUtils.ts:215-218 | isToday compares the input's IST day with the IST day of now + 5.5 h + H minutes, because getCurrentISTTime is converted a second time |
| DateUtils.NowIsNotToday | src/lib/dateUtils.ts:215-218 | on a UTC host, from 18:30 IST on, the current instant itself is not "today" |
| DateUtils.IsThisMonthIST | src/lib/dateUtils.ts:310-318 | isThisMonthIST holds iff the converted input's local year and month are the IST year and month of now |
| DateUtils.IsThisMonthISTIff | src/lib/dateUtils.ts:310-318 | for a readable input, isThisMonthIST holds iff its IST year and month are those of the current instant, whatever H is |
| DateUtils.ParseFormFields | src/lib/dateUtils.ts:36-53 | an empty date or time text fails; a success holds the Number() values of the first three '-' pieces and the first two ':' pieces of the trimmed texts |
| DateUtils.CreateISTDateTime | src/lib/dateUtils.ts:31-88 | when the fields can be read, the result is the field-path instant |
| DateUtils.FieldsToInstant | src/lib/dateUtils.ts:55-60 | in-range fields of a year outside 0..99 are read back by the host's getters from the result plus 5.5 h: year, month − 1, day, hour, minute, 0 seconds |
| DateUtils.CreateISTDateTimeHostShift | src/lib/dateUtils.ts:55-60 | on the field path the host offset moves the result by exactly H minutes |
| DateUtils.DateInput | src/lib/dateUtils.ts:95-98 | the date text is String(year), '-', two digits holding the month, '-', two digits holding the day |
| DateUtils.FormatDateForInput | src/lib/dateUtils.ts:93-99 | the result is String(year) and the zero-padded month (1-12) and day of convertToIST(date), read with the host's getters, joined by '-' |
| DateUtils.TimeInput | src/lib/dateUtils.ts:106-108 | the time text is five characters, two digits, ':' and two digits, holding the hour and minute |
| DateUtils.FormatTimeForInput | src/lib/dateUtils.ts:104-109 | the result is HH:MM with zero-padded digits holding the local hour and minute of convertToIST(date) |
| DateUtils.DatePieces | src/lib/dateUtils.ts:41-47 | trimming a formatted date and splitting it at '-' gives the year, month and day texts |
| DateUtils.TimePieces | src/lib/dateUtils.ts:42-48 | trimming a formatted time and splitting it at ':' gives the hour and minute texts |
| DateUtils.ReadFormatted | src/lib/dateUtils.ts:36-53 | formatted date and time texts pass validation and are read back as the numbers they were made of |
| DateUtils.NewDateMinute | src/lib/dateUtils.ts:56 | a Date built from a time value's own local fields down to the minute is that value truncated to the minute (years from 100 on) |
| DateUtils.FormatCreateRoundTrip | src/lib/dateUtils.ts:31-109 | createISTDateTime(formatDateForInput(t), formatTimeForInput(t)) is t truncated to the minute plus H minutes; exact on a UTC host |
| DateUtils.CreateFormatRoundTrip | src/lib/dateUtils.ts:31-109 | on a UTC host, formatDateForInput and formatTimeForInput of createISTDateTime(date, time) give back the date and time texts, for every real date from year 100 on and every time of day |
| DateUtils.CreateISTDateTimeFields | src/lib/dateUtils.ts:41-60 | well-formed date and time texts take the field path with the numbers they spell |
| DateUtils.FieldsMonthRollover | src/lib/dateUtils.ts:56-60 | month m + 12 gives the same instant as month m of the next year: fields are rolled over, not rejected |
| DateUtils.FieldsHourRollover | src/lib/dateUtils.ts:56-60 | hour h + 24 gives the same instant as hour h of the next day |
| DateUtils.CreateISTDateTimeNoDate | src/lib/dateUtils.ts:31-87 | an empty date string fails both the field path and the UTC fallback, so the result is the current time |
| DateUtils.DayBoundsIST | src/lib/dateUtils.ts:223-256 | start of day is 00:00 IST of the input's IST date moved by H minutes, and end of day is start + 86,399,999 ms |
| DateUtils.GetStartOfDayIST | src/lib/dateUtils.ts:223-237 | outside the years 0..99, the result is local midnight of the converted day, moved by H minutes, minus 5.5 h |
| DateUtils.GetEndOfDayIST | src/lib/dateUtils.ts:242-256 | outside the years 0..99, the result is the last millisecond of the converted day, moved by H minutes, minus 5.5 h |
| DateUtils.DayBracketUtcHost | src/lib/dateUtils.ts:223-256 | on a UTC host start ≤ x ≤ end, the two differ by 86,399,999 ms, and the start is 00:00 IST of x's IST date |
| DateUtils.DayBracketIstHost | src/lib/dateUtils.ts:242-256 | on a host in IST (H = −330), from 18:30 IST on an instant lies after its own end of day |
| DateUtils.WeekSunday | src/lib/dateUtils.ts:263-266 | the result is a Sunday, 0 to 6 days on or before the given day |
| DateUtils.WeekStartIST | src/lib/dateUtils.ts:261-272 | plus 5.5 h and less H minutes, the week start is a midnight, of a Sunday, 0 to 6 days on or before the converted day |
| DateUtils.GetWeekStartIST | src/lib/dateUtils.ts:261-272 | the setDate/setHours mutations yield local midnight of the Sunday of the local week of convertToIST(x), minus 5.5 h |
| DateUtils.WeekStartUtcHost | src/lib/dateUtils.ts:261-272 | on a UTC host the week start is an IST Sunday at 00:00, less than 7 days at or before x |
| DateUtils.WeekStartHostShift | src/lib/dateUtils.ts:261-272 | the host offset moves the week start by H minutes |
| DateUtils.GetMonthStartIST | src/lib/dateUtils.ts:277-290 | outside the years 0..99, the result is local midnight of day 1 of the converted month, moved by H minutes, minus 5.5 h |
| DateUtils.MonthStartUtcHost | src/lib/dateUtils.ts:277-290 | on a UTC host the month start is 00:00 IST of day 1 of x's IST year and month, at or before x |
| DateUtils.MonthStartValue | src/lib/dateUtils.ts:277-290 | the month start is IST midnight of day 1 of the IST month, moved by H minutes |
| DateUtils.MonthStartHostShift | src/lib/dateUtils.ts:277-290 | the host offset moves the month start by H minutes |
| DateUtils.IsThisWeekIST | src/lib/dateUtils.ts:295-305 | the method, which mutates the week-end Date, decides the same as the stated week window |
| DateUtils.InThisWeek | src/lib/dateUtils.ts:295-305 | an accepted input's IST day (moved by −H minutes) is one of the seven days from the Sunday of the IST week of now + H minutes + 5.5 h |
| DateUtils.WeekEndOf | src/lib/dateUtils.ts:300-302 | the week end is the week start's local date six days on, at 23:59:59.999 local time |
| DateUtils.ThisWeekWindow | src/lib/dateUtils.ts:296-304 | isThisWeekIST holds iff the converted input lies between the converted week start and the converted week end |
| DateUtils.ArgAsInstant | src/lib/dateUtils.ts:215-218 | isToday and isThisWeekIST read an argument, Date or string, only through its time value |
| DateUtils.WeekEndValue | src/lib/dateUtils.ts:299-302 | the bounds compared against are Sunday 00:00 and, because the end is built on the shifted instant, Saturday 05:29:59.999 IST, both moved by H |
| DateUtils.ThisWeekUtcHost | src/lib/dateUtils.ts:295-305 | on a UTC host an instant is this week iff its IST clock lies between Sunday 00:00 and Saturday 05:29:59.999 of the IST week of now + 5.5 h; equivalently, its IST day is one of Sunday to Friday of that week, or the Saturday before 05:30 |
| DateUtils.NowNotThisWeekOnSaturday | src/lib/dateUtils.ts:295-305 | from Saturday 05:30 IST on, the current instant is not "this week" on a UTC host |
| CalendarStats.DayPosts | src/components/CalendarStats.tsx:21 | the day posts are exactly the posts whose date is "today", in input order |
| CalendarStats.WeekPosts | src/components/CalendarStats.tsx:22 | the week posts are exactly the posts isThisWeekIST accepts, in input order |
| CalendarStats.MonthPosts | src/components/CalendarStats.tsx:23 | the month posts are exactly the posts isThisMonthIST accepts, in input order |
| CalendarStats.Row | src/components/CalendarStats.tsx:34-52 | posted, scheduled, drafted and ideas are getStatusCount of the list and linkedin and twitter getPlatformCount; the status counts add up to the total, and a platform count is 0 iff no post names that platform |
| CalendarStats.Stats | src/components/CalendarStats.tsx:42-73 | three cards, month, week and today, each the card of its own list, whose totals are the sizes of the three lists and whose status counts add up |
| CalendarStats.MonthPostsIff | src/components/CalendarStats.tsx:23 | a readable post counts for the month iff its IST year and month are those of now |
| CalendarStats.DayPostsIff | src/components/CalendarStats.tsx:21 | a readable post counts for today iff its IST day is that of now + 5.5 h + H minutes |
| CalendarStats.TodayInWeekUtcHost | src/components/CalendarStats.tsx:21-22 | on a UTC host an instant that isToday accepts is also in this week's window unless the doubly shifted current day is a Saturday and the instant is at or after 05:30 IST |
| PostCounts.WithStatus | src/components/Dashboard.tsx:115-118 | the posts with a status are exactly those of the list with that status, in order |
| PostCounts.StatusCount | src/components/CalendarStats.tsx:34-36 | the count is at most the list length and is 0 iff no post has the status |
| PostCounts.WithPlatform | src/components/CalendarStats.tsx:38-40 | exactly the posts whose platform list names the platform, in order |
| PostCounts.PlatformCount | src/components/CalendarStats.tsx:38-40 | the count is at most the list length and is 0 iff no post names the platform; PlatformCountCons gives its value post by post |
| PostCounts.PlatformCountCons | src/components/CalendarStats.tsx:38-40 | the first post adds one to a platform's count exactly when its platform list names the platform |
| PostCounts.StatusCountsSum | src/components/Dashboard.tsx:113-119 | the four status counts add up to the number of posts |
| KeyboardNavigation.HandleKeyDown | src/hooks/useKeyboardNavigation.ts:16-45 | keys typed into inputs, textareas and selects do nothing; Ctrl/Meta+N and Ctrl/Meta+V create and toggle with preventDefault; Escape calls onEscape without it; nothing else happens |
| Dashboard.Toggled | src/components/Dashboard.tsx:25 | toggling always changes the view mode |
| Dashboard.FilteredPosts | src/components/Dashboard.tsx:100-102 | 'All' keeps the list; any other filter keeps exactly the posts whose status is that text, in order |
| Dashboard.StatusCountsOf | src/components/Dashboard.tsx:113-119 | All is the number of posts and the four status counts add up to it |
| Dashboard.TabCountMatchesList | src/components/Dashboard.tsx:100-119 | a status tab's count is the length of the list that tab shows |
| Dashboard.UnknownFilterEmpty | src/components/Dashboard.tsx:100-102 | a filter that is neither 'All' nor a status name shows no post |
| Dashboard.DashboardState.constructor | src/components/Dashboard.tsx:21-52 | no form, no edited or selected post, filter 'All', calendar view |
| Dashboard.DashboardState.OpenForm | src/components/Dashboard.tsx:170-174 | the form is shown and nothing else changes |
| Dashboard.DashboardState.ToggleView | src/components/Dashboard.tsx:25 | the view mode flips and nothing else changes |
| Dashboard.DashboardState.Escape | src/components/Dashboard.tsx:26-30 | the form is closed and the edited and selected posts are cleared |
| Dashboard.DashboardState.KeyDown | src/components/Dashboard.tsx:23-31 | each shortcut's callback has its effect on the state, preventDefault as the handler says, and other keys change nothing |
| Dashboard.DashboardState.HandleCreatePost | src/components/Dashboard.tsx:54-69 | a created post closes the form and refetches; a failure changes nothing |
| Dashboard.DashboardState.HandleUpdatePost | src/components/Dashboard.tsx:71-81 | without an edited post nothing is sent; otherwise an update of that id is sent and, on success, form, edited and selected post are cleared and the list refetched |
| Dashboard.DashboardState.HandleDeletePost | src/components/Dashboard.tsx:83-88 | a successful delete refetches and the state is untouched |
| Dashboard.DashboardState.HandleEditPost | src/components/Dashboard.tsx:90-94 | the post becomes the edited one, the form opens and the quick view closes |
| Dashboard.DashboardState.HandlePostClick | src/components/Dashboard.tsx:96-98 | the post becomes the selected one and nothing else changes |
| Dashboard.DashboardState.CloseQuickView | src/components/Dashboard.tsx:280 | the selection is cleared and nothing else changes |
| Dashboard.DashboardState.SetViewMode | src/components/Dashboard.tsx:149-159 | the view mode is set and nothing else changes |
| Dashboard.DashboardState.SetFilter | src/components/Dashboard.tsx:193 | the filter is set and nothing else changes |
| Dashboard.DashboardState.CancelForm | src/components/Dashboard.tsx:268-272 | the form closes and the edited post is cleared |
| Dashboard.DashboardState.SubmitForm | src/components/Dashboard.tsx:264-272 | the form's submit creates when nothing is edited and updates the edited post's id otherwise, with the matching state changes; the invariant that an edited post implies an open form is kept by every handler |
| CalendarView.NavigatedValue | src/components/CalendarView.tsx:27-40 | in the week and day views the date moves by exactly 7 or 1 days times the direction's sign |
| CalendarView.NextPrevRestores | src/components/CalendarView.tsx:27-43 | in the week and day views, 'next' then 'prev' restores the date |
| CalendarView.NextMonthFields | src/components/CalendarView.tsx:32 | the same day (at most 28) of the next month: same year and month + 1, or December into January of the next year |
| CalendarView.MonthBack | src/components/CalendarView.tsx:32 | for every month, the month before the next month (with the December carry into January) is the same calendar day |
| CalendarView.MonthNextFields | src/components/CalendarView.tsx:32 | 'next' in the month view keeps the day of month (at most 28) and the clock, and moves to the next month, carrying December into January |
| CalendarView.MonthNextPrevDay | src/components/CalendarView.tsx:32 | 'prev' after 'next' computes the original local day |
| CalendarView.MonthNextPrevRestores | src/components/CalendarView.tsx:27-43 | in the month view, 'next' then 'prev' restores the date when its day of month is at most 28 |
| CalendarView.MonthNavigationFromJan31 | src/components/CalendarView.tsx:32 | from January 31 'next' overflows into March and 'prev' does not come back |
| CalendarView.GetWeekStart | src/components/CalendarView.tsx:59-64 | the result has getDay() = 0, is 0 to 6 days before the input, and keeps the clock time |
| CalendarView.WeekDays | src/components/CalendarView.tsx:146-155 | exactly 7 consecutive days whose first day's local date is the IST Sunday of currentDate's IST week |
| CalendarView.SevenDaysFrom | src/components/CalendarView.tsx:150-155 | the loop yields 7 days, the i-th exactly i days after the week start |
| CalendarView.MovedCopy | src/components/CalendarView.tsx:152-153 | a copy of weekStart moved on by setDate(getDate() + i) is i whole days later |
| CalendarView.GridMonth | src/components/CalendarView.tsx:224-225 | the shown month lies in 0..11 |
| CalendarView.GridYear | src/components/CalendarView.tsx:224-225 | the shown year is the year whose days hold the day of currentDate + H minutes + 11 h |
| CalendarView.GridMonthStart | src/components/CalendarView.tsx:225 | monthStart reads locally as day 1 of the shown month and year, at midnight |
| CalendarView.GridMonthLength | src/components/CalendarView.tsx:226 | the shown month has 28 to 31 days |
| CalendarView.GridOffset | src/components/CalendarView.tsx:228 | monthStart's weekday lies in 0..6 |
| CalendarView.GridMonthStartFields | src/components/CalendarView.tsx:225 | monthStart is local midnight of day 1 of the shown month |
| CalendarView.GridMonthEnd | src/components/CalendarView.tsx:226 | monthEnd, day 0 of the next month, is local midnight of the month's last day |
| CalendarView.GridStartSunday | src/components/CalendarView.tsx:227-228 | the first cell is a local Sunday on or before monthStart, less than 7 days before it |
| CalendarView.GridStart | src/components/CalendarView.tsx:227-228 | the first cell is a whole number of days, 0 to 6, before monthStart |
| CalendarView.GridFields | src/components/CalendarView.tsx:224-225 | the year and month read from convertToIST(currentDate) are those of the shown grid |
| CalendarView.BackToSunday | src/components/CalendarView.tsx:227-228 | the copy of monthStart is moved back by monthStart's local weekday, in whole days |
| CalendarView.MonthDays | src/components/CalendarView.tsx:224-236 | monthStart and monthEnd are the month's first and last days at midnight, and the grid is 42 consecutive days from a Sunday on or before monthStart |
| CalendarView.DaysFrom | src/components/CalendarView.tsx:230-236 | the loop collects `count` consecutive days starting at its start |
| CalendarView.MonthBounds | src/components/CalendarView.tsx:225-226 | monthStart is local midnight of the first of the IST month and monthEnd, day 0 of the next month, is midnight of its last day |
| CalendarView.StepDate | src/components/CalendarView.tsx:235 | setDate(getDate() + k) moves a Date exactly k whole days |
| CalendarView.CellDay | src/components/CalendarView.tsx:233-236 | cell i's local day is the first of the month moved by i minus the offset |
| CalendarView.CellInMonth | src/components/CalendarView.tsx:256 | the cells from the offset on show days 1, 2, .. of the shown month |
| CalendarView.CellOutsideMonth | src/components/CalendarView.tsx:256 | the other cells lie in other months |
| CalendarView.CurrentMonthCells | src/components/CalendarView.tsx:254-270 | isCurrentMonth holds iff the cell index is within the month's days from the offset on, and those cells show 1, 2, ..; so every day of the month appears exactly once |
| CalendarView.PostsForDate | src/components/CalendarView.tsx:238-242 | exactly the posts on the same IST day as the cell's date, in input order |
| CalendarView.PostsForDateMember | src/components/CalendarView.tsx:157-161 | a post is in a cell iff isSameDayIST holds for it and the cell's date |
| CalendarView.PostsForDateIff | src/components/CalendarView.tsx:238-242 | a readable post is in a cell iff its IST day is the cell's IST day |
| CalendarView.CompareTimesConsistent | src/components/CalendarView.tsx:311 | on readable dates the time-difference comparator is a consistent order |
| CalendarView.ScheduledTime | src/components/CalendarView.tsx:311 | `new Date(post.scheduledAt)` reads the date the same way as the IST helpers |
| CalendarView.CompareTimes | src/components/CalendarView.tsx:311 | the comparator is antisymmetric and is negative exactly when both dates are readable and the first is earlier |
| CalendarView.SortedByTime | src/components/CalendarView.tsx:311 | with readable dates the sort puts the posts in ascending time order |
| CalendarView.DayPosts | src/components/CalendarView.tsx:309-311 | the day's posts are exactly those of that IST day, each as often as before, and ascending by time when all dates are readable |
| CalendarView.DayPostsStable | src/components/CalendarView.tsx:311 | posts at the same time keep their relative order |
| CalendarView.PostsForHour | src/components/CalendarView.tsx:315-319 | exactly the day's posts whose IST hour is the given hour, in order |
| CalendarView.PostHour | src/components/CalendarView.tsx:317 | the row key is an hour 0..23, and for a readable date the hour of the date plus 5.5 h |
| CalendarView.OneHourRow | src/components/CalendarView.tsx:313-324 | every post of the day lies in exactly one of the 24 rows, the one of its IST hour |
| CalendarView.HourRowsPartition | src/components/CalendarView.tsx:313-324 | the 24 hour rows together hold as many posts as the day has |
| Lists.GroupsPartition | src/components/CalendarView.tsx:313-324 | when every key lies in 0 .. n-1, the n key groups together hold every element exactly once |
| CalendarView.HourLabel | src/components/CalendarView.tsx:329-332 | the label is the 12-hour clock hour (12 for 0 and 12) followed by " AM" for 0..11 and " PM" for 12..23 |
| CalendarView.HourText | src/components/CalendarView.tsx:329-332 | the number part is "12" for hours 0 and 12 and the hour modulo 12 otherwise |
| CalendarView.HourLabelInjective | src/components/CalendarView.tsx:329-332 | the 24 labels are all different |
| CalendarView.MonthCellOf | src/components/CalendarView.tsx:274-294 | a cell shows the first min(3, n) posts; "+k more" appears iff n > 3, with k = n − 3 |
| CalendarView.CalendarState.constructor | src/components/CalendarView.tsx:24-25 | the calendar opens on the current time in the month view |
| CalendarView.CalendarState.SetViewType | src/components/CalendarView.tsx:76 | the view is set and the date kept |
| CalendarView.CalendarState.GoToToday | src/components/CalendarView.tsx:97 | the date becomes the current time and the view is kept |
| CalendarView.CalendarState.NavigateDate | src/components/CalendarView.tsx:27-43 | the stored date moves by the view's step: 7 days or 1 day exactly in the week and day views |
| CalendarView.StepMonth | src/components/CalendarView.tsx:32 | setMonth(getMonth() + k) gives the value of the month-view step |
| CalendarView.MovedDate | src/components/CalendarView.tsx:28-39 | the copy moved with setMonth or setDate has the value the view's step prescribes |
| PostForm.FormatDateTimeLocal | src/components/PostForm.tsx:22-32 | the text is the IST date as YYYY-MM-DD, a 'T', and the IST time as HH:MM, and splitting it at 'T' gives back those two parts |
| PostForm.DateInputNoT | src/components/PostForm.tsx:26-32 | the date part holds no 'T', so the split at 'T' is unambiguous |
| PostForm.InitialForm | src/components/PostForm.tsx:40-49 | a new form is empty on LinkedIn as a General Thought Idea; an edited post's fields are copied, a missing asset URL becoming ''; the time field is formatDateTimeLocal of the stored time or of getCurrentISTTime() |
| PostForm.DefaultTimeShift | src/components/PostForm.tsx:46 | a new form's time field shows the IST wall clock of now + 5.5 h + H minutes, getCurrentISTTime() being converted once more |
| PostForm.IsoText | src/components/PostForm.tsx:22-32 | formatting toISOString(t) gives the IST date and time of t itself, as the ISO text parses back to t |
| PostForm.AddTag | src/components/PostForm.tsx:103-111 | a blank or present trimmed tag changes nothing, another is appended at the end; a duplicate-free list stays duplicate-free and grows by at most one |
| PostForm.RemoveTag | src/components/PostForm.tsx:113-118 | every occurrence of the tag is removed, the other tags are kept in order |
| PostForm.DateTimeParts | src/components/PostForm.tsx:61 | the two parts are the first two pieces of the split at 'T', the second possibly missing |
| PostForm.Submit | src/components/PostForm.tsx:53-94 | a missing or empty date or time part raises 'Error creating post: Invalid datetime format' and submits nothing; otherwise every field is submitted unchanged except scheduledAt = createISTDateTime(datePart, timePart).toISOString() |
| PostForm.SubmitNeedsT | src/components/PostForm.tsx:61-67 | a time field without 'T' is refused with the alert |
| PostForm.EditFormParts | src/components/PostForm.tsx:46-61 | the time field of a form opened on a post splits into its non-empty IST date and time texts |
| PostForm.FormatSameInstant | src/components/PostForm.tsx:22-32 | a string is formatted as the instant it parses to |
| PostForm.SubmitParts | src/components/PostForm.tsx:61-81 | non-empty date and time parts are submitted through createISTDateTime |
| PostForm.EditSaveUnchanged | src/components/PostForm.tsx:40-87 | saving an opened post unchanged stores its time truncated to the minute plus H minutes: exact on a UTC host, drifting by H minutes per save elsewhere |
| PostForm.PostFormState.constructor | src/components/PostForm.tsx:40-51 | the form starts from the initial form data and an empty hashtag box |
| PostForm.PostFormState.SetHashtagInput | src/components/PostForm.tsx:245 | the hashtag box takes the text and the form data is kept |
| PostForm.PostFormState.SetScheduledAt | src/components/PostForm.tsx:230 | the time field takes the text and every other field is kept |
| PostForm.PostFormState.AddHashtag | src/components/PostForm.tsx:103-111 | the tag list becomes AddTag of the old list and box, and the box is cleared exactly when a tag was added |
| PostForm.PostFormState.RemoveHashtag | src/components/PostForm.tsx:113-118 | the tag list becomes RemoveTag of the old list |
| PostForm.PostFormState.TogglePlatform | src/components/PostForm.tsx:120-126 | the platform list is toggled: the platform is present afterwards iff it was absent before |
| PostForm.PostFormState.HandleImageUploaded | src/components/PostForm.tsx:95-97 | the asset URL becomes the uploaded URL and nothing else changes |
| PostForm.PostFormState.HandleImageRemoved | src/components/PostForm.tsx:99-101 | the asset URL becomes '' and nothing else changes |
| PostForm.PostFormState.HandleSubmit | src/components/PostForm.tsx:53-94 | the outcome is Submit of the current form data |
| IdeaBacklog.LocaleCompare | src/components/IdeaBacklog.tsx:24-25 | the comparison answers −1, 0 or 1 and is 0 exactly for equal strings |
| IdeaBacklog.LocaleCompareAntisymmetric | src/components/IdeaBacklog.tsx:24-25 | swapping the arguments negates the answer |
| IdeaBacklog.LocaleCompareTransitive | src/components/IdeaBacklog.tsx:24-25 | the order is transitive |
| IdeaBacklog.ComparatorConsistent | src/components/IdeaBacklog.tsx:22-27 | each of the three comparators is a consistent order, so sort's result is well defined |
| IdeaBacklog.PlatformList | src/components/IdeaBacklog.tsx:25 | an empty list joins to ""; otherwise splitting the text at ',' gives back the platform names |
| IdeaBacklog.PlatformListInjective | src/components/IdeaBacklog.tsx:25 | two platform lists join to the same text exactly when they are equal |
| IdeaBacklog.CompareIdeas | src/components/IdeaBacklog.tsx:22-27 | by impact the higher impact sorts first and ties are equal impacts; by type or platform two ideas tie exactly when their types or platform lists are equal |
| IdeaBacklog.SortedIdeas | src/components/IdeaBacklog.tsx:22-27 | the result is a permutation of the ideas, by descending impact, by type name, or by joined platform list |
| IdeaBacklog.SortedIdeasStable | src/components/IdeaBacklog.tsx:22-27 | ideas that compare equal keep their relative order |
| ImageService.LastSegment | src/services/imageService.ts:48-49 | the last piece of the split at '/' holds no '/' and is a suffix of the URL |
| ImageService.GetPublicIdFromUrl | src/services/imageService.ts:46-51 | the id holds neither '/' nor '.', is a prefix of the last path segment that stops at the segment's first '.', and is that whole segment when it has no '.' |
| ImageService.LastSegmentOf | src/services/imageService.ts:48-49 | the last segment of a + "/" + b is b when b has no '/' |
| ImageService.TrailingSlashEmptyId | src/services/imageService.ts:46-51 | a URL ending in '/' gives the empty id |
| ImageService.FolderNotInId | src/services/imageService.ts:7 | for a file under the upload folder the id is the file name up to its first '.', without the folder |
| AssetLibrary.FilteredAssets | src/components/AssetLibrary.tsx:20-22 | an empty filter keeps every asset; otherwise exactly the assets with a tag equal to the filter, in order |
| AssetLibrary.TagMatchedWhole | src/components/AssetLibrary.tsx:21 | a tag that only contains the filter does not match: tags are compared whole |
| PostQuickView.StatusColor | src/components/PostQuickView.tsx:19-27 | yellow for Drafted, blue for Scheduled, green for Posted, grey exactly for Idea and every other string |
| PostQuickView.StatusColorInjective | src/components/PostQuickView.tsx:19-27 | the four statuses get four different colours |
| PostQuickView.Prefixed | src/components/PostQuickView.tsx:28 | each tag gets a '#' in front, in order |
| PostQuickView.HashtagsText | src/components/PostQuickView.tsx:28 | no tags give the empty text |
| PostQuickView.HashtagsTextSplits | src/components/PostQuickView.tsx:28 | for tags without spaces, splitting the text at ' ' gives back the '#'-prefixed tags |
| PostQuickView.Sanitize | src/components/PostQuickView.tsx:97 | every character that is not an ASCII letter or digit becomes '_', the others are kept, the length is kept |
| PostQuickView.DownloadFilename | src/components/PostQuickView.tsx:97 | the download name is the sanitised title followed by "_asset" |
| PostQuickView.Render | src/components/PostQuickView.tsx:16-121 | nothing is shown without a post; the image block iff the asset URL is non-empty; the hashtag block iff there are tags |
| PostsService.TransformPost | src/services/postsService.ts:159-171 | the row's fields are copied; a null tag list becomes []; a null or empty asset URL becomes undefined |
| PostsService.RowValuesOf | src/services/postsService.ts:43-51 | the insert and update columns carry the post's fields, assetUrl as asset_url and scheduledAt as scheduled_at |
| PostsService.UpdateRowOf | src/services/postsService.ts:72-81 | the update row also carries updated_at = the current time as an ISO string |
| PostsService.Inserted | src/services/postsService.ts:41-54 | the stored row has the assigned id and creation time and the sent columns |
| PostsService.Updated | src/services/postsService.ts:70-83 | an updated row takes every new column value and the update time, and keeps its id and creation time |
| PostsService.ApplyUpdate | src/services/postsService.ts:70-83 | rows with the id take the new columns and update time, keeping their creation time; every other row is unchanged |
| PostsService.InsertRoundTrip | src/services/postsService.ts:39-61 | createPost returns the submitted post under the new id, unless the asset URL is '' |
| PostsService.InsertEmptyAssetUrl | src/services/postsService.ts:166 | an empty asset URL comes back as undefined |
| PostsService.UpdateRoundTrip | src/services/postsService.ts:68-92 | after an update the row reads back as the submitted post, unless the asset URL is '' |
| ImageUpload.CheckFile | src/components/ImageUpload.tsx:18-26 | a type not starting with "image/" is refused first, then a size above 10,485,760 bytes; exactly 10 MiB passes |
| ImageUpload.CheckMessage | src/components/ImageUpload.tsx:18-26 | a refused file raises a non-empty alert, an accepted one none |
| ImageUpload.ImageUploadState.constructor | src/components/ImageUpload.tsx:13-14 | neither uploading nor drag-highlighted |
| ImageUpload.ImageUploadState.HandleFileUpload | src/components/ImageUpload.tsx:17-42 | a refused file raises its alert without an upload; otherwise the upload runs, a non-empty URL goes to onImageUploaded, anything else raises 'Failed to upload image', and uploading ends false |
| ImageUpload.ImageUploadState.HandleFileSelect | src/components/ImageUpload.tsx:44-49 | the first chosen file, if any, goes through handleFileUpload |
| ImageUpload.ImageUploadState.HandleDrop | src/components/ImageUpload.tsx:51-59 | the highlight goes off, then the first dropped file, if any, is uploaded |
| ImageUpload.ImageUploadState.HandleDragOver | src/components/ImageUpload.tsx:61-64 | the drop zone is highlighted |
| ImageUpload.ImageUploadState.HandleDragLeave | src/components/ImageUpload.tsx:66-69 | the highlight goes off |
| ImageUpload.RemoveImage | src/components/ImageUpload.tsx:71-77 | the image is deleted and the parent told iff there is a non-empty image and a callback, with the id getPublicIdFromUrl gives |
| ImageUpload.TenMiBBoundary | src/components/ImageUpload.tsx:23 | exactly 10 MiB is accepted, one byte more refused |
| ImageUpload.TypeCheckedFirst | src/components/ImageUpload.tsx:18-21 | a non-image is refused as such whatever its size |
| ResetPassword.PasswordProblem | src/app/reset-password/page.tsx:31-40 | a mismatch is reported first, then a password under 6 characters; no problem iff the fields match and have at least 6 characters |
| ResetPassword.ResetPasswordState.constructor | src/app/reset-password/page.tsx:7-11 | empty fields, not loading, no error, no success |
| ResetPassword.ResetPasswordState.SetPassword | src/app/reset-password/page.tsx:92 | the password field takes the text; nothing else changes |
| ResetPassword.ResetPasswordState.SetConfirmPassword | src/app/reset-password/page.tsx:106 | the confirmation field takes the text; nothing else changes |
| ResetPassword.ResetPasswordState.AuthCallback | src/app/reset-password/page.tsx:16-26 | a failed session lookup shows 'Invalid or expired reset link' |
| ResetPassword.ResetPasswordState.HandleSubmit | src/app/reset-password/page.tsx:28-58 | the update is sent iff the checks pass; a failed check shows its message and leaves loading and success alone; a provider error is shown; success clears the error and sets success; loading ends false |
| ResetPassword.MismatchReportedFirst | src/app/reset-password/page.tsx:31-40 | a mismatched short password is reported as a mismatch |
| PostModal.OrElse | src/components/PostModal.tsx:42-50 | a missing or empty string falls back to the default, like `||` |
| PostModal.InitialFields | src/components/PostModal.tsx:42-50 | the fields take the initial values or the defaults '', [], '09:00', 'General Thought', 'Idea', the date falling back to the date prop |
| PostModal.PostModalState.constructor | src/components/PostModal.tsx:42-50 | the fields start as InitialFields of the props |
| PostModal.PostModalState.DateChanged | src/components/PostModal.tsx:52-54 | a non-empty date prop replaces the date field; nothing else changes |
| PostModal.PostModalState.ResetOnOpen | src/components/PostModal.tsx:56-70 | while open, every field is reset to InitialFields of the props |
| PostModal.PostModalState.Render | src/components/PostModal.tsx:72-136 | nothing is rendered when closed; otherwise the fields, a platform highlighted iff selected, the date input iff no date prop, the delete button iff an onDelete callback |
| PostModal.PostModalState.TogglePlatform | src/components/PostModal.tsx:128-132 | a selected platform is removed, another appended; other fields unchanged |
| PostModal.PostModalState.Submit | src/components/PostModal.tsx:92-107 | an empty title, date or time calls neither onSave nor onClose; otherwise onSave receives the current fields and onClose is called |
| PostModal.DeleteClicked | src/components/PostModal.tsx:194-203 | onDelete then onClose are called iff there is a callback and the user confirms |
| PostModal.OpenedSavable | src/components/PostModal.tsx:47-94 | a freshly opened dialog can be saved iff it was given a title and a date, the time always defaulting to '09:00' |
| PostModal.BlankDefaults | src/components/PostModal.tsx:42-50 | with no initial values the dialog opens blank at 09:00 as a 'General Thought' 'Idea' on the given date |
| PostModal.TogglePlatformTwice | src/components/PostModal.tsx:128-132 | pressing a platform button twice restores the selection |
| TimeMath.YearFromDay | src/lib/dateUtils.ts:95 | getFullYear's year is the one whose range of day numbers holds the day |
| TimeMath.YearFromDayUnique | src/lib/dateUtils.ts:95 | that year is the only one |
| TimeMath.DaysInMonth | src/components/CalendarView.tsx:226 | a month has 28 to 31 days |
| TimeMath.MakeDayFields | src/lib/dateUtils.ts:56 | in-range year, month and date read back unchanged from the day they make |
| TimeMath.FieldsMakeDay | src/lib/dateUtils.ts:227-232 | a day rebuilt from its own year, month and date is itself |
| TimeMath.MakeDayShift | src/components/CalendarView.tsx:35 | date + k is k days later, across month and year ends |
| TimeMath.MakeDayYearCarry | src/components/CalendarView.tsx:32 | month + 12 is the same month of the next year |
| TimeMath.MonthLastDay | src/components/CalendarView.tsx:226 | day 0 of the next month is the last day of this one |
| TimeMath.SameMonthNearby | src/components/CalendarView.tsx:256 | a day within 300 days of the first of a month, in that month, lies in that month of that year |
| TimeMath.ClockFields | src/lib/dateUtils.ts:106-107 | hours, minutes, seconds and milliseconds are in range and rebuild the time |
| JsDate.SetDateShift | src/components/CalendarView.tsx:35 | setDate(getDate() + k) moves the time by exactly k days |
| JsDate.SetHoursFields | src/lib/dateUtils.ts:267 | setHours keeps the local day and sets the local clock |
| JsDate.ShiftDays | src/components/CalendarView.tsx:235 | moving by k days moves the local day by k and keeps the clock |
| JsDate.NewDateFields | src/lib/dateUtils.ts:56 | the constructor's in-range fields are what the local getters read back |
| JsDate.Date.constructor | src/components/CalendarView.tsx:28 | the copy holds the given time value |
| JsDate.Date.SetDate | src/components/CalendarView.tsx:35 | setDate replaces the local date, the rest kept |
| JsDate.Date.SetMonth | src/components/CalendarView.tsx:32 | setMonth replaces the local month, the rest kept |
| JsDate.Date.SetHours | src/lib/dateUtils.ts:267 | setHours replaces the local clock, the day kept |
| JsString.TrimStart | src/lib/dateUtils.ts:41-42 | only leading white space is removed, up to the first other character |
| JsString.TrimEnd | src/lib/dateUtils.ts:41-42 | only trailing white space is removed |
| JsString.Split | src/lib/dateUtils.ts:47-48 | at least one piece, none holding the separator |
| JsString.JoinSplit | src/components/PostQuickView.tsx:28 | joining the pieces of a split with the separator gives back the string |
| JsString.SplitJoin | src/components/PostQuickView.tsx:28 | splitting a join of separator-free pieces gives back the pieces |
| JsString.NatToString | src/lib/dateUtils.ts:96 | String(n) is decimal digits with the value n and no leading zero |
| JsString.PadNat | src/lib/dateUtils.ts:96-97 | padStart gives exactly `width` digits with the value n when n fits |
| JsString.NumberOfDigits | src/lib/dateUtils.ts:47 | Number() of a digit string is its decimal value |
| IsoFormat.Pad2 | src/lib/dateUtils.ts:96-97 | two digits holding n |
| IsoFormat.ParseIsoString | src/components/PostForm.tsx:46 | new Date(t.toISOString()) is t again |
| Lists.Filter | src/components/Dashboard.tsx:102 | filter keeps exactly the elements that pass the test |
| Lists.FilterSubsequence | src/components/Dashboard.tsx:102 | filter keeps the input order |
| Lists.Toggle | src/components/PostForm.tsx:120-126 | a present element is removed, an absent one appended, the others kept |
| Lists.ToggleTwice | src/components/PostForm.tsx:120-126 | toggling twice restores membership, and the list itself when the element was absent |
| Sorting.SortBy | src/components/IdeaBacklog.tsx:22 | sort returns a permutation of its input |
| Sorting.SortSorted | src/components/IdeaBacklog.tsx:22-27 | with a consistent comparator the result is in order |
| Sorting.SortStable | src/components/IdeaBacklog.tsx:22-27 | elements that compare equal keep their relative order |

## Left out

- TimeClip is not modelled: time values are unbounded integers, so
  `new Date` never turns a huge value into an Invalid Date.
- `new Date(string)` accepts only the ECMA-262 Date Time String Format.
  Any other text, which engines may still parse with their own heuristics,
  is an Invalid Date here.
- `Number(string)` is modelled for an optional sign and decimal digits
  only. Fractions, exponents, hexadecimal and Infinity are NaN in the
  model.
- Strings are sequences of characters, not UTF-16 code units.
  `password.length` and the title sanitiser's ASCII test are exact only
  for text in the Basic Multilingual Plane.
- Locale formatting (toLocaleDateString, toLocaleTimeString,
  toDateString) needs locale data. This leaves out formatDisplayDate,
  formatDisplayTime, getISTDateString, CalendarView's getDateTitle and the
  time lines of the cells, TimezoneIndicator and PostCard.
- IdeaBacklog.LocaleCompare: localeCompare is modelled as
  character-by-character comparison. It agrees with locale order on the
  app's type names and platform lists, but not on arbitrary text.
- The real clock and DST: `new Date()` reads become the parameter `now`.
  The host offset H is one constant, so DST changes in it are not
  modelled.
- Supabase and Cloudinary I/O. The queries, the upload and the delete
  request become parameters (the service's answer) or row-level
  functions. The API routes, the test page and the realtime subscription
  are not part of this model.
- Auth and routing glue are not part of this model: AuthForm, Login,
  ProtectedRoute, UserProfile and router.push. Neither are the reset
  page's redirect timer and its getSession call (its failure is the
  parameter of `AuthCallback`).
- `alert`, `confirm`, `console` output, `debugDate` and the `window`
  keydown listener registration. Alerts are returned as outcomes;
  confirm's answer is a parameter.
- Dashboard.DashboardState.HandleCreatePost: the request and its answer
  are one step. Two overlapping async requests and their interleavings are
  not modelled.
- CalendarView.DayPosts: the DayView comparator's NaN result for an
  unreadable date is taken as 0. The order is proved only when every date
  is readable.
- The month cell's `isToday` ring (`CalendarView.tsx:257`) is a styling
  flag over isSameDayIST, which is modelled. The ring itself is not.
- The plain onChange setters of PostForm and PostModal (title, caption,
  type, status, category, file) are not modelled. They replace one field
  and are shown by the modelled setters of the same shape.
- CopyButton, DownloadButton, the static components, animations and
  markup have no logic to state.
