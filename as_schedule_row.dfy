/**
 * AsScheduleRowDto: the completion label of a schedule row, computed against today's date in
 * Asia/Seoul (passed in, since the clock is not modelled).
 */
module AsScheduleRowDto {
  import opened Wrappers
  import Calendar

  const Completed := "\U{C644}\U{B8CC}"
  const NotCompleted := "\U{BBF8}\U{C644}\U{B8CC}"

  /** getCompletionLabel: complete once a completion date exists that is not after today. */
  function CompletionLabel(completeDate: Option<Calendar.DateTime>, today: Calendar.Date): (text: string)
    ensures text == Completed || text == NotCompleted
    ensures text == Completed <==> completeDate.Some? && !Calendar.IsAfter(completeDate.value.date, today)
  {
    if completeDate.None? then NotCompleted
    else if !Calendar.IsAfter(completeDate.value.date, today) then Completed
    else NotCompleted
  }

  /** On valid dates the label reads "completed" exactly when the completion day number is at most
      today's: a completion later today counts, one tomorrow does not. */
  lemma CompletedByDayNumber(completeDate: Calendar.DateTime, today: Calendar.Date)
    requires Calendar.IsValidDateTime(completeDate) && Calendar.IsValid(today)
    ensures CompletionLabel(Some(completeDate), today) == Completed <==>
              Calendar.DayNumber(completeDate.date) <= Calendar.DayNumber(today)
    ensures CompletionLabel(Some(completeDate), Calendar.PrevDay(completeDate.date)) == NotCompleted
  {
    Calendar.IsAfterIffLaterDayNumber(completeDate.date, today);
    Calendar.IsAfterIffLaterDayNumber(completeDate.date, Calendar.PrevDay(completeDate.date));
  }
}
