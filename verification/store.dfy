/** The remote store standing in for the message channel: `put` files a
    payload and hands back a fresh locator (the attachment URL of
    cake2.py:102), `get` looks a locator up (cake2.py:142). Locators are
    issued from a counter, which keeps them fresh. */
module RemoteStore {
  import opened Slicing

  type Url = nat

  datatype Store = Store(blobs: map<Url, Bytes>, next: Url)

  /** Every locator issued so far is below the counter. */
  predicate Valid(s: Store) {
    forall u :: u in s.blobs ==> u < s.next
  }

  /** A successful upload: the payload is filed under a locator never
      issued before, and every earlier locator keeps its payload. */
  function Put(s: Store, payload: Bytes): (r: (Url, Store))
    ensures Valid(s) ==> r.0 !in s.blobs && Valid(r.1)
    ensures r.1.blobs == s.blobs[r.0 := payload]
  {
    (s.next, Store(s.blobs[s.next := payload], s.next + 1))
  }

  /** `s2` keeps everything `s1` holds. */
  predicate Extends(s1: Store, s2: Store) {
    forall u :: u in s1.blobs ==> u in s2.blobs && s2.blobs[u] == s1.blobs[u]
  }
}
