/** The popup panel's logic, apart from its DOM handlers: the load-time
    session check, PIN unlock and manual lock, first-time PIN setup, PIN
    change, adding notes and secrets, deleting by index and the copy action.
    Every handler reads the store, decides, and writes whole keys back; `now`
    is a parameter in place of `Date.now()`. */
module Popup {
  import opened Wrappers
  import opened Storage
  import opened Messages
  import opened DataUri
  import Background

  /** `AUTO_LOCK_TIMEOUT`: five minutes in milliseconds. */
  const AutoLockTimeout: int := 5 * 60 * 1000

  /** The most quick pastes the notes list may hold. */
  const MaxNotes: nat := 20

  /** The clear delay the copy action uses when none is stored. */
  const DefaultClearDelay: int := 30000

  /** The load-time session check: `unlockedUntil && Date.now() < unlockedUntil`. */
  predicate SessionActive(unlockedUntil: Option<int>, now: int) {
    TruthyNumber(unlockedUntil) && now < unlockedUntil.value
  }

  /** At any real (non-negative) time the vault loads unlocked exactly when
      an expiry is stored and lies in the future; an expiry that has passed
      reads as locked although it is still stored. */
  lemma SessionActiveIff(unlockedUntil: Option<int>, now: int)
    requires now >= 0
    ensures SessionActive(unlockedUntil, now) <==> unlockedUntil.Some? && now < unlockedUntil.value
    ensures unlockedUntil.Some? && now >= unlockedUntil.value ==> !SessionActive(unlockedUntil, now)
  {
  }

  /** A successful unlock at `now` keeps loads unlocked for exactly five
      minutes. */
  lemma UnlockWindow(now: int, later: int)
    requires now >= 0
    ensures SessionActive(Some(now + AutoLockTimeout), later) <==> later < now + 300000
  {
  }

  /** `list.splice(index, 1)`: removes the entry at `index` and keeps the
      others in order; an index past the end removes nothing. */
  function RemoveAt<T>(s: seq<T>, index: nat): (r: seq<T>)
    ensures index < |s| ==> |r| == |s| - 1
    ensures index < |s| ==> forall k :: 0 <= k < index ==> r[k] == s[k]
    ensures index < |s| ==> forall k :: index <= k < |r| ==> r[k] == s[k + 1]
    ensures index >= |s| ==> r == s
  {
    if index < |s| then s[..index] + s[index + 1..] else s
  }

  /** Removing at an index and putting the entry back restores the list. */
  lemma RemoveAtInsert<T>(s: seq<T>, index: nat)
    requires index < |s|
    ensures RemoveAt(s, index)[..index] + [s[index]] + RemoveAt(s, index)[index..] == s
  {
    var r := RemoveAt(s, index);
    assert r[..index] == s[..index];
    assert r[index..] == s[index + 1..];
    assert s == s[..index] + [s[index]] + s[index + 1..];
  }

  /** The copy action's delay rule, `clearDelay || 30000` armed when `> 0`:
      the default applies when no delay (or 0) is stored, a positive stored
      delay is used as is, and a negative one arms nothing. */
  function PanelDelay(clearDelay: Option<int>): (r: Option<int>)
    ensures r.Some? ==> r.value > 0
    ensures !TruthyNumber(clearDelay) ==> r == Some(DefaultClearDelay)
    ensures TruthyNumber(clearDelay) ==> (r.Some? <==> clearDelay.value > 0)
    ensures TruthyNumber(clearDelay) && r.Some? ==> r == clearDelay
  {
    var delay := if TruthyNumber(clearDelay) then clearDelay.value else DefaultClearDelay;
    if delay > 0 then Some(delay) else None
  }

  /** The panel and the shortcut arm the same timer for a stored positive
      delay; with no delay stored the panel arms 30 seconds while the
      shortcut arms none. */
  lemma PanelAndShortcutDelays(clearDelay: Option<int>)
    ensures clearDelay.Some? && clearDelay.value > 0 ==>
              PanelDelay(clearDelay) == Background.ShortcutDelay(clearDelay) == clearDelay
    ensures clearDelay.None? ==>
              PanelDelay(clearDelay) == Some(DefaultClearDelay) && Background.ShortcutDelay(clearDelay).None?
    ensures Background.ShortcutDelay(clearDelay).Some? ==> PanelDelay(clearDelay) == Background.ShortcutDelay(clearDelay)
  {
  }

  /** The two lists: the one a copy or delete button sits in, and the
      `type` the panel attaches the buttons' handlers with. */
  datatype ListKind = SecretList | NoteList

  /** The value a copy button reads: the secret's value or the note; the
      empty (falsy) string when the index is past the end. */
  function CopyValue(local: Local, kind: ListKind, index: nat): (v: string)
    ensures kind == SecretList && index < |ListOr(local.secrets)| ==> v == ListOr(local.secrets)[index].value
    ensures kind == NoteList && index < |ListOr(local.notes)| ==> v == ListOr(local.notes)[index]
    ensures kind == SecretList && index >= |ListOr(local.secrets)| ==> v == ""
    ensures kind == NoteList && index >= |ListOr(local.notes)| ==> v == ""
  {
    match kind
    case SecretList =>
      var list := ListOr(local.secrets);
      if index < |list| then list[index].value else ""
    case NoteList =>
      var list := ListOr(local.notes);
      if index < |list| then list[index] else ""
  }

  /** The notes list is within its cap. */
  predicate NotesWithinCap(local: Local) {
    |ListOr(local.notes)| <= MaxNotes
  }

  /** The outcome of adding a note or a pasted image. */
  datatype AddResult = Ignored | Rejected | Saved

  /** The outcome of the change-PIN form. */
  datatype PinChange = MissingField | WrongPin | Changed

  /** The timer request the copy action sends after storing `lastCopied`. */
  function TimerRequest(clearDelay: Option<int>, value: string): seq<Msg> {
    match PanelDelay(clearDelay)
    case Some(d) => [StartClearTimer(d, value)]
    case None => []
  }

  /** One open popup over the shared store. */
  class Vault {
    const store: Store
    var unlocked: bool               // `isSecretsUnlocked`
    var bound: Option<ListKind>      // the `type` every copy and delete button was last attached with
    var outbox: seq<Msg>             // messages sent with chrome.runtime.sendMessage
    var calls: seq<ClipboardCall>    // direct navigator.clipboard calls

    /** The popup only believes itself unlocked with a PIN configured and an
        expiry stored. */
    ghost predicate Valid()
      reads this, store
    {
      unlocked ==> store.local.pin.Some? && store.unlockedUntil.Some?
    }

    /** Initialisation at load: unlocked only when a PIN is set and the
        stored session has not expired at `now`; with a PIN set the notes
        are rendered, which attaches the buttons as note buttons. */
    constructor Load(store: Store, now: int)
      ensures Valid()
      ensures this.store == store && outbox == [] && calls == []
      ensures unlocked <==> Truthy(store.local.pin) && SessionActive(store.unlockedUntil, now)
      ensures bound == if Truthy(store.local.pin) then Some(NoteList) else None
    {
      this.store := store;
      unlocked := Truthy(store.local.pin) && SessionActive(store.unlockedUntil, now);
      bound := if Truthy(store.local.pin) then Some(NoteList) else None;
      outbox := [];
      calls := [];
    }

    /** What the secrets view shows: the stored secrets while the popup
        believes itself unlocked, nothing otherwise. It takes no clock: the
        expiry is not looked at again once the popup is open. */
    function VisibleSecrets(): (r: Option<seq<Secret>>)
      requires Valid()
      reads this, store
      ensures r.Some? <==> unlocked
      ensures r.Some? ==> store.local.pin.Some? && store.unlockedUntil.Some?
      ensures r.Some? ==> r.value == ListOr(store.local.secrets)
    {
      if unlocked then Some(ListOr(store.local.secrets)) else None
    }

    /** The unlock button: succeeds exactly when the input equals the stored
        PIN, and then opens a five-minute session and renders the secrets;
        a wrong PIN changes nothing. */
    method Unlock(input: string, now: int) returns (ok: bool)
      requires Valid()
      modifies this`unlocked, this`bound, store`unlockedUntil
      ensures Valid()
      ensures ok <==> store.local.pin == Some(input)
      ensures ok ==> unlocked && store.unlockedUntil == Some(now + AutoLockTimeout) && bound == Some(SecretList)
      ensures !ok ==> unlocked == old(unlocked) && store.unlockedUntil == old(store.unlockedUntil) && bound == old(bound)
    {
      ok := store.local.pin == Some(input);
      if ok {
        unlocked := true;
        store.unlockedUntil := Some(now + AutoLockTimeout);
        bound := Some(SecretList);
      }
    }

    /** Manual lock, reached only from an unlocked popup: the popup is
        locked and the session expiry removed. Nothing is re-rendered. */
    method Lock()
      requires unlocked
      modifies this`unlocked, store`unlockedUntil
      ensures Valid()
      ensures !unlocked && store.unlockedUntil == None
    {
      unlocked := false;
      store.unlockedUntil := None;
    }

    /** The header's secrets button. Unlocked with the secrets view hidden,
        it renders the secrets; unlocked with it shown, it locks; locked, it
        shows the PIN prompt, which has no list buttons. */
    method SecretsButton(secretsShown: bool)
      requires Valid()
      modifies this`unlocked, this`bound, store`unlockedUntil
      ensures Valid()
      ensures old(unlocked) && !secretsShown ==>
                unlocked && bound == Some(SecretList) && store.unlockedUntil == old(store.unlockedUntil)
      ensures old(unlocked) && secretsShown ==>
                !unlocked && store.unlockedUntil == None && bound == old(bound)
      ensures !old(unlocked) ==>
                !unlocked && bound == old(bound) && store.unlockedUntil == old(store.unlockedUntil)
    {
      if unlocked && !secretsShown {
        bound := Some(SecretList);
      } else if unlocked {
        Lock();
      }
    }

    /** First-time setup: a non-empty PIN is stored and the existing lists
        are kept (empty ones created where absent), and the notes are
        rendered; an empty PIN does nothing. */
    method SetupPin(pin: string)
      requires Valid()
      modifies store`local, this`bound
      ensures Valid()
      ensures pin == "" ==> store.local == old(store.local) && bound == old(bound)
      ensures pin != "" ==>
                store.local == old(store.local).(
                  pin := Some(pin),
                  secrets := Some(ListOr(old(store.local.secrets))),
                  notes := Some(ListOr(old(store.local.notes)))) &&
                bound == Some(NoteList)
      ensures NotesWithinCap(old(store.local)) ==> NotesWithinCap(store.local)
    {
      if pin != "" {
        var existing := store.local;
        store.local := existing.(
          pin := Some(pin),
          secrets := Some(ListOr(existing.secrets)),
          notes := Some(ListOr(existing.notes)));
        bound := Some(NoteList);
      }
    }

    /** Change PIN: both fields must be filled and the current PIN must equal
        the stored one; only then is the PIN replaced. The unlock state is
        never touched. */
    method ChangePin(current: string, newPin: string) returns (r: PinChange)
      requires Valid()
      modifies store`local
      ensures Valid()
      ensures r == (if current == "" || newPin == "" then MissingField
                    else if old(store.local.pin) != Some(current) then WrongPin
                    else Changed)
      ensures r == Changed ==> store.local == old(store.local).(pin := Some(newPin))
      ensures r != Changed ==> store.local == old(store.local)
      ensures unlocked == old(unlocked) && store.unlockedUntil == old(store.unlockedUntil)
    {
      if current == "" || newPin == "" {
        return MissingField;
      }
      if store.local.pin != Some(current) {
        return WrongPin;
      }
      store.local := store.local.(pin := Some(newPin));
      r := Changed;
    }

    /** `addNote`: empty input is ignored; a list already holding the
        maximum is left as it is (rejected, not evicted); otherwise the note
        is put first and the notes are rendered. */
    method AddNote(val: string) returns (r: AddResult)
      requires Valid()
      modifies store`local, this`bound
      ensures Valid()
      ensures r == (if val == "" then Ignored
                    else if |ListOr(old(store.local.notes))| >= MaxNotes then Rejected
                    else Saved)
      ensures r == Saved ==> store.local == old(store.local).(notes := Some([val] + ListOr(old(store.local.notes)))) &&
                             bound == Some(NoteList)
      ensures r != Saved ==> store.local == old(store.local) && bound == old(bound)
      ensures NotesWithinCap(old(store.local)) ==> NotesWithinCap(store.local)
    {
      if val == "" {
        return Ignored;
      }
      var list := ListOr(store.local.notes);
      if |list| >= MaxNotes {
        return Rejected;
      }
      store.local := store.local.(notes := Some([val] + list));
      bound := Some(NoteList);
      r := Saved;
    }

    /** A pasted image, read as a data URL, is added under the same cap. */
    method PasteImage(dataUrl: string) returns (r: AddResult)
      requires Valid()
      modifies store`local, this`bound
      ensures Valid()
      ensures r == (if |ListOr(old(store.local.notes))| < MaxNotes then Saved else Rejected)
      ensures r == Saved ==> store.local == old(store.local).(notes := Some([dataUrl] + ListOr(old(store.local.notes)))) &&
                             bound == Some(NoteList)
      ensures r != Saved ==> store.local == old(store.local) && bound == old(bound)
      ensures NotesWithinCap(old(store.local)) ==> NotesWithinCap(store.local)
    {
      var list := ListOr(store.local.notes);
      if |list| < MaxNotes {
        store.local := store.local.(notes := Some([dataUrl] + list));
        bound := Some(NoteList);
        r := Saved;
      } else {
        r := Rejected;
      }
    }

    /** `addSecret`: with a label and a value, the pair is put first, in
        plain text, and the secrets are rendered; no other entry changes. */
    method AddSecret(name: string, value: string) returns (saved: bool)
      requires Valid()
      modifies store`local, this`bound
      ensures Valid()
      ensures saved <==> name != "" && value != ""
      ensures saved ==> store.local == old(store.local).(secrets := Some([Secret(name, value)] + ListOr(old(store.local.secrets)))) &&
                        bound == Some(SecretList)
      ensures !saved ==> store.local == old(store.local) && bound == old(bound)
    {
      saved := name != "" && value != "";
      if saved {
        var list := ListOr(store.local.secrets);
        store.local := store.local.(secrets := Some([Secret(name, value)] + list));
        bound := Some(SecretList);
      }
    }

    /** A delete button of list `clicked`, acting on that list: the entry at
        `index` is removed, the list written back and re-rendered. */
    method DeleteClicked(clicked: ListKind, index: nat)
      requires Valid()
      modifies store`local, this`bound
      ensures Valid()
      ensures clicked == SecretList ==>
                store.local == old(store.local).(secrets := Some(RemoveAt(ListOr(old(store.local.secrets)), index)))
      ensures clicked == NoteList ==>
                store.local == old(store.local).(notes := Some(RemoveAt(ListOr(old(store.local.notes)), index)))
      ensures bound == Some(clicked)
      ensures NotesWithinCap(old(store.local)) ==> NotesWithinCap(store.local)
    {
      match clicked {
        case SecretList =>
          store.local := store.local.(secrets := Some(RemoveAt(ListOr(store.local.secrets), index)));
        case NoteList =>
          store.local := store.local.(notes := Some(RemoveAt(ListOr(store.local.notes), index)));
      }
      bound := Some(clicked);
    }

    /** A delete button as the panel binds it: whichever list the button
        belongs to, the handler removes `index` from the list of the last
        render. Without any render there is no handler. */
    method Delete(clicked: ListKind, index: nat)
      requires Valid()
      modifies store`local, this`bound
      ensures Valid()
      ensures bound == old(bound)
      ensures old(bound) == None ==> store.local == old(store.local)
      ensures old(bound) == Some(SecretList) ==>
                store.local == old(store.local).(secrets := Some(RemoveAt(ListOr(old(store.local.secrets)), index)))
      ensures old(bound) == Some(NoteList) ==>
                store.local == old(store.local).(notes := Some(RemoveAt(ListOr(old(store.local.notes)), index)))
      ensures NotesWithinCap(old(store.local)) ==> NotesWithinCap(store.local)
    {
      if bound.Some? {
        DeleteClicked(bound.value, index);
      }
    }

    /** A copy button of list `clicked`, reading that list. An empty value
        does nothing. An image goes to the background as an addressed copy
        request; text is written here with `writeText` (whose rejection ends
        the handler). Then `lastCopied` is stored and, for a positive delay,
        a clear timer is requested for the same value. A note button never
        puts a secret on the clipboard. */
    method CopyClicked(clicked: ListKind, index: nat, writeTextRejects: bool) returns (copied: bool)
      requires Valid()
      modifies this`outbox, this`calls, store`local
      ensures Valid()
      ensures var v := CopyValue(old(store.local), clicked, index);
              copied <==> v != "" && (IsImagePayload(v) || !writeTextRejects)
      ensures var v := CopyValue(old(store.local), clicked, index);
              calls == old(calls) + (if v != "" && !IsImagePayload(v) then [WriteText(v)] else [])
      ensures var v := CopyValue(old(store.local), clicked, index);
              copied ==> store.local == old(store.local).(lastCopied := Some(v)) &&
                         outbox == old(outbox) + (if IsImagePayload(v) then [CopyRequest(v)] else [])
                                   + TimerRequest(old(store.local.clearDelay), v)
      ensures !copied ==> store.local == old(store.local) && outbox == old(outbox)
      ensures clicked == NoteList && copied ==> store.local.lastCopied == Some(ListOr(old(store.local.notes))[index])
    {
      var val := CopyValue(store.local, clicked, index);
      if val == "" {
        return false;
      }
      if IsImagePayload(val) {
        outbox := outbox + [CopyRequest(val)];
      } else {
        calls := calls + [WriteText(val)];
        if writeTextRejects {
          return false;
        }
      }
      store.local := store.local.(lastCopied := Some(val));
      outbox := outbox + TimerRequest(store.local.clearDelay, val);
      copied := true;
    }

    /** A copy button as the panel binds it: whichever list the button
        belongs to, the handler reads `index` from the list of the last
        render. Without any render there is no handler. */
    method Copy(clicked: ListKind, index: nat, writeTextRejects: bool) returns (copied: bool)
      requires Valid()
      modifies this`outbox, this`calls, store`local
      ensures Valid()
      ensures old(bound) == None ==>
                !copied && store.local == old(store.local) && outbox == old(outbox) && calls == old(calls)
      ensures old(bound).Some? ==>
                var v := CopyValue(old(store.local), old(bound).value, index);
                (copied <==> v != "" && (IsImagePayload(v) || !writeTextRejects)) &&
                calls == old(calls) + (if v != "" && !IsImagePayload(v) then [WriteText(v)] else []) &&
                (copied ==> store.local == old(store.local).(lastCopied := Some(v)) &&
                            outbox == old(outbox) + (if IsImagePayload(v) then [CopyRequest(v)] else [])
                                      + TimerRequest(old(store.local.clearDelay), v)) &&
                (!copied ==> store.local == old(store.local) && outbox == old(outbox))
    {
      copied := false;
      if bound.Some? {
        copied := CopyClicked(bound.value, index, writeTextRejects);
      }
    }
  }

  /** A popup that loads locked keeps the secrets hidden until an unlock
      succeeds, and the first unlock shows them exactly when the PIN
      matches. */
  method HiddenUntilUnlocked(store: Store, now: int, input: string, later: int) returns (v: Vault, hidden: bool, ok: bool)
    requires !Truthy(store.local.pin) || !SessionActive(store.unlockedUntil, now)
    modifies store
    ensures hidden
    ensures v.Valid() && (v.VisibleSecrets().Some? <==> ok)
    ensures ok <==> old(store.local.pin) == Some(input)
  {
    v := new Vault.Load(store, now);
    hidden := v.VisibleSecrets().None?;
    ok := v.Unlock(input, later);
  }

  /** The expiry is checked only when a popup loads: a popup opened within
      the session still shows the secrets after it has expired, while one
      opened after the expiry does not. */
  method ExpiryCheckedOnlyAtLoad(store: Store, now: int, later: int) returns (open: Vault, reopened: Vault)
    requires Truthy(store.local.pin) && SessionActive(store.unlockedUntil, now)
    requires later >= store.unlockedUntil.value
    ensures open.Valid() && open.VisibleSecrets().Some?
    ensures reopened.Valid() && reopened.VisibleSecrets().None?
  {
    open := new Vault.Load(store, now);
    reopened := new Vault.Load(store, later);
  }

  /** After an unlock and a manual lock, the copy button of the first note
      puts the first secret on the clipboard: the buttons are still bound
      to the secrets list. */
  method LockedNoteButtonCopiesSecret() returns (v: Vault)
    ensures v.Valid() && !v.unlocked
    ensures v.store.local.lastCopied == Some("s3cret")
    ensures CopyValue(v.store.local, NoteList, 0) == "hello"
  {
    var store := new Store(Local(Some("1234"), Some([Secret("mail", "s3cret")]), Some(["hello"]), None, None), None);
    v := new Vault.Load(store, 0);
    var ok := v.Unlock("1234", 0);
    v.Lock();
    var copied := v.Copy(NoteList, 0, false);
  }

  /** After an unlock, the delete button of the first note removes the
      first secret and leaves the notes as they were. */
  method NoteButtonDeletesSecret() returns (v: Vault)
    ensures v.Valid()
    ensures v.store.local.secrets == Some([]) && v.store.local.notes == Some(["hello"])
  {
    var store := new Store(Local(Some("1234"), Some([Secret("mail", "s3cret")]), Some(["hello"]), None, None), None);
    v := new Vault.Load(store, 0);
    var ok := v.Unlock("1234", 0);
    v.Delete(NoteList, 0);
  }

  /** Over the shared store, whatever the popup copied is what the shortcut
      then makes the background re-copy. */
  method CopyThenShortcut(v: Vault, b: Background.Broker, kind: ListKind, index: nat, writeTextRejects: bool)
    returns (copied: bool)
    requires v.Valid() && b.Valid() && v.store == b.store
    modifies v, v.store, b
    ensures copied ==> b.outbox == old(b.outbox) + [CopyRequest(CopyValue(old(v.store.local), kind, index))]
  {
    copied := v.CopyClicked(kind, index, writeTextRejects);
    b.OnCommand(Background.CopyLastItem);
  }
}
