/**
 * The browser's `localStorage` as the pages use it: a string-to-string store
 * holding the signed-in user's name and email.
 */
module Session {
  import opened Wrappers

  /** The key under which the signed-in user's display name is kept. */
  const UserNameKey := "userName"
  /** The key under which the signed-in user's email is kept. */
  const EmailKey := "email"

  /** JavaScript truthiness of a stored string: present (not `null`/`undefined`) and not empty. */
  predicate Truthy(v: Option<string>) {
    v.Some? && v.value != ""
  }

  /**
   * The text `setItem` stores for a value that may be `undefined`: the value
   * itself, or the word "undefined".
   */
  function StoredText(v: Option<string>): string {
    if v.Some? then v.value else "undefined"
  }

  /** The session store, updated in place by `setItem` and `removeItem`. */
  class SessionStore {
    var items: map<string, string>

    constructor ()
      ensures items == map[]
    {
      items := map[];
    }

    /** `getItem(key)`: the stored value, or `None` (JavaScript `null`) for a missing key. */
    function GetItem(key: string): (v: Option<string>)
      reads this
      ensures v.Some? <==> key in items
      ensures v.Some? ==> v.value == items[key]
    {
      if key in items then Some(items[key]) else None
    }

    /** `setItem(key, value)`: `key` now holds `value`; every other key is as it was. */
    method SetItem(key: string, value: string)
      modifies this
      ensures items == old(items)[key := value]
    {
      items := items[key := value];
    }

    /** `removeItem(key)`: `key` is gone; every other key is as it was. */
    method RemoveItem(key: string)
      modifies this
      ensures items == old(items) - {key}
    {
      items := items - {key};
    }
  }
}
