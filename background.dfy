/** The background service worker: the clipboard broker. It owns the single
    clear-timer slot, makes sure an offscreen writer document exists before
    forwarding a copy, reacts to the "copy last item" shortcut and to the
    runtime messages `start-clear-timer`, `copy-to-clipboard` and
    `copy-done`. Real time is replaced by an explicit `Fire` event. */
module Background {
  import opened Wrappers
  import opened Storage
  import opened Messages

  /** The keyboard command that re-copies the last copied value. */
  const CopyLastItem: string := "copy-last-item"

  /** A scheduled clear: the delay and value it was armed with. */
  datatype PendingClear = PendingClear(delay: int, value: string)

  /** The shortcut's timer rule, `clearDelay && clearDelay > 0`: a timer is
      armed exactly when a positive delay is stored, and with that delay. */
  function ShortcutDelay(clearDelay: Option<int>): (r: Option<int>)
    ensures r.Some? <==> clearDelay.Some? && clearDelay.value > 0
    ensures r.Some? ==> r == clearDelay
  {
    if TruthyNumber(clearDelay) && clearDelay.value > 0 then clearDelay else None
  }

  class Broker {
    var timer: Option<PendingClear>   // the module-level `clearTimer`
    var offscreenOpen: bool           // an OFFSCREEN_DOCUMENT context exists
    var created: nat                  // offscreen documents this worker created
    var outbox: seq<Msg>              // messages sent with chrome.runtime.sendMessage
    const store: Store

    /** Everything the broker sends is a copy request addressed to the
        offscreen writer. */
    ghost predicate Valid()
      reads this
    {
      forall i :: 0 <= i < |outbox| ==> ForWriter(outbox[i])
    }

    constructor (store: Store, offscreenOpen: bool)
      ensures Valid()
      ensures this.store == store && this.offscreenOpen == offscreenOpen
      ensures timer == None && created == 0 && outbox == []
    {
      this.store := store;
      this.offscreenOpen := offscreenOpen;
      timer := None;
      created := 0;
      outbox := [];
    }

    /** `startClearTimer`: cancel any pending clear and schedule this one, so
        at most one is pending and the last one armed wins. */
    method StartClearTimer(delay: int, value: string)
      modifies this`timer
      ensures timer == Some(PendingClear(delay, value))
    {
      timer := Some(PendingClear(delay, value));
    }

    /** `writeToClipboard`: create the offscreen document only when none
        exists, then send one addressed copy request carrying `text`. */
    method WriteToClipboard(text: string)
      requires Valid()
      modifies this`offscreenOpen, this`created, this`outbox
      ensures Valid() && offscreenOpen
      ensures created == old(created) + (if old(offscreenOpen) then 0 else 1)
      ensures outbox == old(outbox) + [CopyRequest(text)]
    {
      if !offscreenOpen {
        offscreenOpen := true;
        created := created + 1;
      }
      outbox := outbox + [CopyRequest(text)];
    }

    /** The pending timer elapses: it writes the empty string, whatever value
        it was armed with, and the slot is empty again. */
    method Fire()
      requires Valid() && timer.Some?
      modifies this`timer, this`offscreenOpen, this`created, this`outbox
      ensures Valid() && offscreenOpen && timer == None
      ensures created == old(created) + (if old(offscreenOpen) then 0 else 1)
      ensures outbox == old(outbox) + [CopyRequest("")]
    {
      timer := None;
      WriteToClipboard("");
    }

    /** `chrome.offscreen.closeDocument()` inside try/catch: closing when no
        document exists fails, and the failure is swallowed. */
    method CloseOffscreen() returns (failed: bool)
      modifies this`offscreenOpen
      ensures !offscreenOpen
      ensures failed == !old(offscreenOpen)
    {
      failed := !offscreenOpen;
      offscreenOpen := false;
    }

    /** The `onCommand` listener: only `copy-last-item` with a truthy
        `lastCopied` copies it, and only a positive `clearDelay` then arms a
        timer with that delay and the same value. */
    method OnCommand(command: string)
      requires Valid()
      modifies this`timer, this`offscreenOpen, this`created, this`outbox
      ensures Valid()
      ensures !(command == CopyLastItem && Truthy(store.local.lastCopied)) ==>
                timer == old(timer) && offscreenOpen == old(offscreenOpen) &&
                created == old(created) && outbox == old(outbox)
      ensures command == CopyLastItem && Truthy(store.local.lastCopied) ==>
                offscreenOpen &&
                created == old(created) + (if old(offscreenOpen) then 0 else 1) &&
                outbox == old(outbox) + [CopyRequest(store.local.lastCopied.value)] &&
                timer == match ShortcutDelay(store.local.clearDelay)
                         case Some(d) => Some(PendingClear(d, store.local.lastCopied.value))
                         case None => old(timer)
    {
      if command == CopyLastItem {
        var lastCopied := store.local.lastCopied;
        if Truthy(lastCopied) {
          WriteToClipboard(lastCopied.value);
          var delay := ShortcutDelay(store.local.clearDelay);
          if delay.Some? {
            StartClearTimer(delay.value, lastCopied.value);
          }
        }
      }
    }

    /** The `onMessage` listener, by message type; unknown types do nothing
        and a failed close on `copy-done` is not propagated. */
    method OnMessage(m: Msg)
      requires Valid()
      modifies this`timer, this`offscreenOpen, this`created, this`outbox
      ensures Valid()
      ensures m.StartClearTimer? ==>
                timer == Some(PendingClear(m.delay, m.value)) &&
                offscreenOpen == old(offscreenOpen) && created == old(created) && outbox == old(outbox)
      ensures m.CopyToClipboard? ==>
                timer == old(timer) && offscreenOpen &&
                created == old(created) + (if old(offscreenOpen) then 0 else 1) &&
                outbox == old(outbox) + [CopyRequest(m.data)]
      ensures m.CopyDone? ==>
                timer == old(timer) && !offscreenOpen && created == old(created) && outbox == old(outbox)
      ensures m.Other? ==>
                timer == old(timer) && offscreenOpen == old(offscreenOpen) &&
                created == old(created) && outbox == old(outbox)
    {
      match m
      case StartClearTimer(delay, value) =>
        StartClearTimer(delay, value);
      case CopyToClipboard(_, data) =>
        WriteToClipboard(data);
      case CopyDone =>
        var _ := CloseOffscreen();
      case Other(_) =>
    }
  }

  /** Arming twice and letting time pass clears exactly once: the first
      timer never fires, and the one clear writes the empty string. */
  method ArmTwiceClearsOnce(b: Broker, delay1: int, value1: string, delay2: int, value2: string)
    requires b.Valid()
    modifies b
    ensures b.Valid() && b.timer == None
    ensures b.outbox == old(b.outbox) + [CopyRequest("")]
  {
    b.StartClearTimer(delay1, value1);
    b.StartClearTimer(delay2, value2);
    assert b.timer == Some(PendingClear(delay2, value2));
    b.Fire();
  }
}
