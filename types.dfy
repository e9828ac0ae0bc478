/**
 * The stored anchor record of the highlighter (contents/utils/types.ts) and
 * the timing constants it uses (contents/utils/constants.ts).
 */
module Types {
  import opened Wrappers

  /** One saved highlight: the quote, its context and its positions. `note`
      is the optional `note?` field. */
  datatype Anchor = Anchor(
    id: string,
    quote: string,
    prefix: string,
    suffix: string,
    color: string,
    note: Option<string>,
    startPos: int,
    endPos: int,
    cssPath: string)

  /** Minimum time between two accepted re-apply checks, in milliseconds. */
  const THROTTLE_INTERVAL: nat := 1000
  /** How long the page must stay free of mutations to count as calm. */
  const CALM_DURATION: nat := 300
  /** The longest the calm waiter waits before giving up. */
  const MAX_WAIT: nat := 5000

  /** The class every highlight marker carries. */
  const HIGHLIGHT_CLASS: string := "hn-highlight"
  /** The class of the note icon appended to a marker. */
  const NOTE_ICON_CLASS: string := "hn-note-icon"
}
