/** The values exchanged with the editor: what a suggester's `onTrigger`
    reports and what its `selectSuggestion` asks `replaceRange` to do, both
    on the cursor's line. */
module Editor {

  /** A half-open range `[start, end)` of the line and the query text taken from it. */
  datatype Trigger = Trigger(start: int, end: int, query: string)

  /** Replace the range `[from, to)` of the line with `text`. */
  datatype Edit = Edit(from: int, to: int, text: string)
}
