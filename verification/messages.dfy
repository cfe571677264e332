/** The user-visible error messages of the note commands. */
module Messages {
  const MESSAGE_INVALID_STUDENT_DISPLAYED_INDEX: string := "The student index provided is invalid"
  const MESSAGE_INVALID_LESSON_DISPLAYED_INDEX: string := "The lesson index provided is invalid"
}
