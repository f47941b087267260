# QuickVault clipboard and vault core, in Dafny

QuickVault is a browser extension that keeps a PIN-gated list of secrets
and a capped list of "quick pastes" (text notes or pasted images), copies
any of them to the clipboard on a click or a keyboard shortcut, and clears
the clipboard again after a delay. The extension runs in three isolated contexts that
talk only by runtime messages:

- the **background worker** (`background.js`) is the clipboard broker. It
  owns the single clear-timer slot. Before it forwards a copy it makes sure
  an offscreen writer document exists. It re-copies `lastCopied` on the
  `copy-last-item` command and closes the writer on `copy-done`.
- the **offscreen writer** (`offscreen.js`) is the only context that
  touches the clipboard. For an image data URI it splits off the header,
  extracts the media type, base64-decodes the body, turns the binary string
  into bytes and writes an image item. For anything else it makes a
  selection copy and, where available, a `writeText` call. Whatever happens,
  it answers with exactly one `copy-done`.
- the **popup panel** (`popup.js`) holds the vault session: the PIN check at
  load, unlock and manual lock, first-time PIN setup, changing the PIN,
  adding notes (at most 20) and pasted images, adding secrets, deleting by
  index, and the copy action that stores `lastCopied` and asks for a clear
  timer.

The project has one module per concern:

| file | module | what it holds |
|---|---|---|
| `wrappers.dfy` | `Wrappers` | `Option` |
| `storage.dfy` | `Storage` | the durable `chrome.storage.local` record and the session `unlockedUntil`, as one shared `Store` object; the JavaScript truthiness tests the code applies to them |
| `messages.dfy` | `Messages` | the closed union of runtime messages, and the clipboard calls a context makes, recorded as values |
| `base64.dfy` | `Base64` | the base64 alphabet, encoding and strict decoding of section 4 of RFC 4648 |
| `data_uri.dfy` | `DataUri` | the image-prefix test and the `split` semantics used on `data:` URIs (RFC 2397) |
| `offscreen.dfy` | `Offscreen` | `atob`, the byte loop, and the `Writer` class |
| `background.dfy` | `Background` | the `Broker` class |
| `popup.dfy` | `Popup` | the session predicate, list helpers, and the `Vault` class |

Effects are recorded, not performed. A context's `outbox` is the sequence
of messages it has sent. Its `calls` is the sequence of clipboard calls it
has made. Clock readings are a `now` parameter. An elapsing timer is the
explicit `Broker.Fire` event. Only the clipboard calls have an outcome
that varies: a `Host` parameter says whether `write` rejects, and whether
`writeText` exists or rejects. Closing the writer document fails exactly
when none exists. Every other browser call succeeds in the model (see
"## Left out").

Some of the code's behaviour differs from what a reader might expect. The
model follows the code:

- One might expect an expired session to read as locked at every read of
  the secrets. The code compares `Date.now()` with `unlockedUntil` only
  when the popup loads (`popup.js:161`). A popup left open keeps showing
  the secrets after the five minutes have passed.
  `Popup.ExpiryCheckedOnlyAtLoad` states this.
- One might expect document creation to tolerate a writer that already
  exists. The code queries the open contexts and creates a document only
  when there is none, with no error handling (`background.js:46-56`). The
  broker is modelled as query-then-create within one event turn.
- The broker's own handler arms whatever delay arrives, zero or negative
  included (`background.js:20-21`). Both callers only send positive delays:
  `Popup.PanelDelay` and `Background.ShortcutDelay` prove this.
- With no `clearDelay` stored, the copy button arms a 30-second clear and
  the shortcut arms none. `Popup.PanelAndShortcutDelays` states the
  difference.
- Secrets are stored in plain text, gated only by the PIN comparison, even
  though the panel labels them "Encrypted". The model keeps them plain.
- Every render re-attaches the handlers of every copy and delete button in
  the document, with the type of the list just rendered. A button of the
  other list then acts on the wrong list (see "## Findings"). The `bound`
  field of `Popup.Vault` records the type of the last render.

## Model

| member | source | states |
|---|---|---|
| Base64.AlphabetBijection | offscreen.js:13 | each of the 64 digit values has one character and reading it back gives the value; a character either is in the alphabet or has no value; the pad `=` is not a digit |
| Base64.Encode | offscreen.js:13 | the reference encoder that `atob` inverts: the output is four characters for every started group of three bytes |
| Base64.EncodeAlphabet | offscreen.js:11 | every encoded character is an alphabet digit or `=`, so an encoded body never contains the `,` that the data URI is split on |
| Base64.Decode | offscreen.js:13 | strict `atob`: a string decodes only if its length is a multiple of four, and then yields exactly three bytes per group, less one for each trailing pad character |
| Base64.DecodeEncode | offscreen.js:13-15 | round trip: decoding the encoding of any byte sequence gives back exactly that sequence |
| DataUri.ImagePayloadIff | offscreen.js:9 | a payload takes the image path exactly when it starts with `data:image/`, whatever follows |
| DataUri.FieldsOfJoin | offscreen.js:11-12 | `split(c)[0]` and `split(c)[1]` of `h + c + x`, where `c` is not in `h`, are `h` and the part of `x` before its first `c` |
| DataUri.SplitDataUriParts | offscreen.js:11 | `[header, body] = data.split(',')` gives the header and body of `header,body`; a further `,rest` is dropped; a payload without a comma has an undefined body |
| DataUri.MediaTypeOfHeader | offscreen.js:12 | the media type read from `data:t;params` is exactly `t` when `t` has no `:` or `;`, whatever the parameters hold |
| DataUri.ImagePayloadMediaType | offscreen.js:9-12 | for every payload that takes the image path, the media-type expression does not throw, and its result starts with `image/` |
| Offscreen.MissingBodyThrows | offscreen.js:11-13 | a payload with no `,` passes `undefined` to `atob`, which throws, so the image path ends in the catch |
| Offscreen.CharCodes | offscreen.js:14-15 | the byte loop yields one entry per character of the binary string, each that character's code |
| Offscreen.ImageWriteOfDataUri | offscreen.js:9-20 | a data URI built from a media type and any bytes is written as an image item with that media type and exactly those bytes |
| Offscreen.ImageDataUriIsImagePayload | offscreen.js:9 | a `data:image/...;base64,` payload is routed to the image path |
| Offscreen.TextPathAttempts | offscreen.js:21-33 | a non-image payload makes the selection copy first, then `writeText` as the second call exactly when it is available, and both carry the payload text; no image is written |
| Offscreen.Writer.constructor | offscreen.js:1 | a fresh writer has sent nothing and made no clipboard calls |
| Offscreen.Writer.OnMessage | offscreen.js:1-5 | only copy requests addressed to `offscreen` are handled; any other message changes nothing |
| Offscreen.Writer.HandleCopy | offscreen.js:7-39 | one `copy-done` is sent whatever happens; the clipboard calls are those of the image or text path; an error is caught exactly when that path throws |
| Background.ShortcutDelay | background.js:10-11 | the shortcut arms a timer exactly when a positive delay is stored, and with that delay |
| Background.Broker.constructor | background.js:1 | a fresh worker has no pending clear and has sent nothing |
| Background.Broker.StartClearTimer | background.js:33-41 | arming replaces any pending clear, so the slot holds only the last delay and value armed |
| Background.Broker.Fire | background.js:35-40 | when the pending clear elapses it writes the empty string, not the armed value, and the slot is empty again |
| Background.Broker.WriteToClipboard | background.js:44-64 | a writer document is created only when none exists; one addressed copy request with the text is sent |
| Background.Broker.CloseOffscreen | background.js:25-29 | afterwards no writer document exists; closing one that does not exist fails, and the failure is swallowed |
| Background.Broker.OnCommand | background.js:4-16 | only `copy-last-item` with a non-empty `lastCopied` copies it, and a positive stored delay then arms a clear for that same value; otherwise nothing changes |
| Background.Broker.OnMessage | background.js:19-31 | `start-clear-timer` arms, `copy-to-clipboard` forwards to the writer, `copy-done` closes the writer, any other type changes nothing; everything the broker sends is addressed to the writer |
| Background.ArmTwiceClearsOnce | background.js:33-41 | arming twice and letting time pass gives exactly one clear, which writes the empty string |
| Popup.SessionActiveIff | popup.js:161 | at load, the vault is unlocked exactly when an expiry is stored and lies in the future; an expired but stored expiry reads as locked |
| Popup.UnlockWindow | popup.js:235 | after an unlock at `now`, a load reads as unlocked exactly up to `now + 300000` |
| Popup.Vault.Load | popup.js:152-163 | the popup starts unlocked only with a PIN set and an unexpired session; with a PIN set the notes are rendered, so the buttons are bound as note buttons |
| Popup.Vault.VisibleSecrets | popup.js:166-179 | the secrets are shown only while the popup believes itself unlocked, which needs a stored PIN and a stored expiry; there is no clock argument, so the expiry is not checked again |
| Popup.HiddenUntilUnlocked | popup.js:155-163 | a popup that loads without a PIN or without an unexpired session shows no secrets until an unlock succeeds, and the first unlock shows them exactly when the PIN matches |
| Popup.ExpiryCheckedOnlyAtLoad | popup.js:161 | a popup opened within the session still shows the secrets after the expiry, while a popup opened after the expiry shows none |
| Popup.Vault.Unlock | popup.js:230-238 | unlock succeeds exactly when the input equals the stored PIN, and then sets the expiry to `now + 300000` and renders the secrets; a wrong PIN changes nothing |
| Popup.Vault.Lock | popup.js:170-175 | manual lock, reached only from an unlocked popup, leaves it locked with no stored expiry and re-renders nothing |
| Popup.Vault.SecretsButton | popup.js:166-180 | unlocked with the secrets hidden it renders the secrets; unlocked with them shown it locks; locked it changes nothing |
| Popup.Vault.SetupPin | popup.js:207-219 | a non-empty PIN is stored, the existing lists are kept (empty lists are created where none exist) and the notes are rendered; an empty PIN changes nothing |
| Popup.Vault.ChangePin | popup.js:499-522 | an empty field, a wrong current PIN and success are told apart in that order; only success replaces the PIN; the session is untouched |
| Popup.Vault.AddNote | popup.js:397-417 | empty input is ignored; with 20 notes the add is rejected and the store is unchanged; otherwise the note is put first and the notes are rendered; the cap of 20 is preserved |
| Popup.Vault.PasteImage | popup.js:432-445 | a pasted image goes first under the same cap and the notes are rendered; at the cap the store is unchanged |
| Popup.Vault.AddSecret | popup.js:316-329 | a label and a value, both non-empty, are put first in plain text and the secrets are rendered; otherwise nothing changes |
| Popup.RemoveAt | popup.js:488 | `splice(index, 1)` removes one entry and keeps the others in order; an index past the end removes nothing |
| Popup.RemoveAtInsert | popup.js:488 | putting the removed entry back at its index restores the list |
| Popup.Vault.Delete | popup.js:479-495 | as written: whichever button is clicked, the list of the last render loses the entry at the index and the other list is untouched; with no render there is no handler |
| Popup.Vault.DeleteClicked | popup.js:484-491 | the clicked button's own list loses the entry at the index, the other list is untouched, and the note cap is preserved |
| Popup.NoteButtonDeletesSecret | popup.js:479-495 | after an unlock, deleting the first note removes the first secret and leaves the notes as they were |
| Popup.PanelDelay | popup.js:472-474 | the copy action arms only positive delays: the stored delay when it is positive, 30000 when none (or 0) is stored, nothing when it is negative |
| Popup.PanelAndShortcutDelays | popup.js:472-474 | the panel and the shortcut agree on every positive stored delay; with none stored only the panel arms a clear |
| Popup.Vault.Copy | popup.js:454-477 | as written: whichever button is clicked, the value is read from the list of the last render, and the copy then proceeds as in `CopyClicked`; with no render there is no handler |
| Popup.Vault.CopyClicked | popup.js:457-475 | the value is the clicked list's entry, so a note button never copies a secret; an empty value does nothing; an image goes to the broker as an addressed request; text is written with `writeText`, and a rejection ends the handler; on success `lastCopied` is the value, and a clear is requested for the same value |
| Popup.LockedNoteButtonCopiesSecret | popup.js:454-476 | after an unlock and a manual lock, the first note's copy button stores the first secret as `lastCopied` while the popup is locked |
| Popup.CopyThenShortcut | popup.js:470 | over the shared store, the shortcut re-copies exactly the value the last successful copy button copied |

## Findings

| source | as written | input that shows it | evidently intended | confidence | as-written member | corrected member |
|---|---|---|---|---|---|---|
| popup.js:454-476 | every render re-binds every `.copy-btn` in the document with the type of the list just rendered, and the handler reads `index` from that list | notes `["hello"]` and secrets `[mail: s3cret]`; unlock, lock, click copy on note 0: `s3cret` is copied while the vault is locked | a copy button copies the entry of its own list | high; not executed | Popup.LockedNoteButtonCopiesSecret | Popup.Vault.CopyClicked |
| popup.js:479-495 | every render re-binds every `.delete-btn` in the same way, and the handler splices `index` out of the list of the last render | the same store; unlock, click delete on note 0: the secret is removed and the note stays | a delete button removes the entry of its own list | high; not executed | Popup.NoteButtonDeletesSecret | Popup.Vault.DeleteClicked |

## Left out

- Rendering, views, toasts, modals, the header icon and HTML escaping (`esc`) are UI with no effect on the stored state.
- Export, import and clearing all notes (`popup.js:523` onward) are outside the modelled core. Clearing the notes also renders them, which re-binds the buttons as note buttons.
- Popup.Vault.SecretsButton: whether the secrets view is shown is a parameter, because the views are UI.
- The real clipboard, the `chrome.*` APIs, `Blob`, `ClipboardItem` and `FileReader` are not called; their calls are recorded as values.
- Background.Broker.WriteToClipboard: `chrome.runtime.getContexts` and `chrome.offscreen.createDocument` are assumed to succeed. In the code, a rejected `createDocument` (`background.js:51`) skips the copy request, and in `onCommand` it also skips the timer (`background.js:12`).
- Background.Broker.OnCommand: the reads of `chrome.storage.local` are assumed to succeed.
- The writes to `chrome.storage.local` and `chrome.storage.session` in the popup handlers are assumed to succeed.
- Popup.Vault.Delete: the confirmation dialog is UI; only the confirmed branch is modelled, and a cancelled delete changes nothing.
- Real time and `setTimeout` are not modelled. `now` is a parameter, and an elapsed timer is the `Fire` event.
- Concurrency between contexts is not modelled: interleavings, stores racing with last write winning, and the broadcast reaching both broker and writer. Each handler runs as one atomic step, including the two separate store reads in `onCommand`.
- Base64.Decode: it is strict, so it does not model `atob`'s forgiving whitespace removal or optional padding. Input that `atob` accepts but that has no padding or has spaces is rejected here.
- Popup.Vault.Copy and Popup.Vault.Delete: the index is a `nat`, so a button index from `parseInt` that is `NaN` or negative is not modelled.
- Offscreen.Writer.HandleCopy: the payload is always a string, so the `typeof data === 'string'` test is not modelled. Every sender in the extension sends a string.
- Storage.Local: each key holds its written type or is absent, so `Array.isArray` on a non-array value is not modelled.
- The 32-bit limit on `setTimeout` delays and non-integer delays are not modelled; delays are integers.
