/** The messages exchanged over `chrome.runtime` between the popup, the
    background worker and the offscreen clipboard writer, and the clipboard
    calls the contexts make, recorded as effects. */
module Messages {
  import opened Wrappers

  /** The `target` value that addresses the offscreen writer. */
  const OffscreenTarget: string := "offscreen"

  /** A runtime message, by its `type` field. `Other` is any other type. */
  datatype Msg =
    | StartClearTimer(delay: int, value: string)
    | CopyToClipboard(target: Option<string>, data: string)
    | CopyDone
    | Other(kind: string)

  /** The addressed copy request the background worker sends. */
  function CopyRequest(text: string): Msg
  {
    CopyToClipboard(Some(OffscreenTarget), text)
  }

  /** The offscreen listener's filter: `target === 'offscreen'` and
      `type === 'copy-to-clipboard'`. */
  predicate ForWriter(m: Msg) {
    m.CopyToClipboard? && m.target == Some(OffscreenTarget)
  }

  /** A call into the real clipboard, recorded instead of performed. */
  datatype ClipboardCall =
    | SelectionCopy(text: string)           // textarea + execCommand('copy')
    | WriteText(text: string)               // navigator.clipboard.writeText
    | WriteImage(mediaType: string, bytes: seq<int>)  // navigator.clipboard.write
}
