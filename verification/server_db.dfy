/** The slices of the server's MySQL tables that the idea endpoints of app.py
    read and write, as values. */
module ServerDb {

  /** A row of `ideas` as the status rules see it (`user_id`, `ideaTitle`, `status`). */
  datatype IdeaRow = IdeaRow(ownerId: int, title: string, status: string)

  /** A row of `notifications` (`user_id`, `idea_id`, `message`); `is_read`
      starts at 0 and `created_at` is a clock reading, both left implicit. */
  datatype Notification = Notification(userId: int, ideaId: int, message: string)

  /** `'The status of your idea "<title>" has been updated to "<status>".'` */
  function StatusMessage(title: string, status: string): string
  {
    "The status of your idea \"" + title + "\" has been updated to \"" + status + "\"."
  }

  /** The CEO variant, ending in ` by the CEO.` */
  function CeoStatusMessage(title: string, status: string): string
  {
    "The status of your idea \"" + title + "\" has been updated to \"" + status + "\" by the CEO."
  }

  /** The notice every admin gets when an idea is submitted:
      `New idea submitted by <name>: '<title>'`. */
  function NewIdeaMessage(employeeName: string, title: string): string
  {
    "New idea submitted by " + employeeName + ": '" + title + "'"
  }
}
