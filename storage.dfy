/** The persistent key-value store shared by the background worker and the
    popup: a durable partition (`chrome.storage.local`) and a session
    partition (`chrome.storage.session`). Only the keys the core reads or
    writes are modelled, each at the type its writers give it; an absent key
    is `None`. */
module Storage {
  import opened Wrappers

  /** One vault entry, `{label, value}` (`label` is a Dafny keyword, hence
      `name`). Stored exactly as entered: no encryption. */
  datatype Secret = Secret(name: string, value: string)

  /** The durable partition: keys `pin`, `secrets`, `notes`, `clearDelay`
      and `lastCopied`. */
  datatype Local = Local(
    pin: Option<string>,
    secrets: Option<seq<Secret>>,
    notes: Option<seq<string>>,
    clearDelay: Option<int>,
    lastCopied: Option<string>)

  /** Both partitions. The session partition holds only `unlockedUntil`
      (epoch milliseconds). */
  class Store {
    var local: Local
    var unlockedUntil: Option<int>

    constructor (local: Local, unlockedUntil: Option<int>)
      ensures this.local == local && this.unlockedUntil == unlockedUntil
    {
      this.local := local;
      this.unlockedUntil := unlockedUntil;
    }
  }

  /** JavaScript truthiness of an optional string: present and non-empty. */
  predicate Truthy(s: Option<string>) {
    s.Some? && s.value != ""
  }

  /** JavaScript truthiness of an optional number: present and non-zero
      (NaN is not modelled). */
  predicate TruthyNumber(n: Option<int>) {
    n.Some? && n.value != 0
  }

  /** `Array.isArray(xs) ? xs : []` and `xs || []` on a stored list. */
  function ListOr<T>(xs: Option<seq<T>>): seq<T> {
    xs.GetOr([])
  }
}
