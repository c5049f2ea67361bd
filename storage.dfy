/** The browser's `sessionStorage`: a synchronous string-to-string store. */
module Storage {
  class SessionStore {
    var items: map<string, string>

    constructor (initial: map<string, string>)
      ensures items == initial
    {
      items := initial;
    }

    /** `setItem`: replaces the entry under `key`, leaving every other key alone. */
    method SetItem(key: string, text: string)
      modifies this
      ensures items == old(items)[key := text]
    {
      items := items[key := text];
    }
  }
}
