/** The OAuth scope URLs the synchroniser asks for. */
module Config {
  const CalendarScope: string := "https://www.googleapis.com/auth/calendar"
  const GmailReadScope: string := "https://www.googleapis.com/auth/gmail.readonly"
  const GmailModifyScope: string := "https://www.googleapis.com/auth/gmail.modify"
}
