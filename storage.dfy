/**
  `window.localStorage` as the pages use it: a map from keys to strings whose
  calls may throw. Whether a call throws is the browser's decision (a full
  quota, storage disabled), so it is supplied by the caller of each operation.
*/
module BrowserStorage {
  import opened Wrappers

  /** What a `setItem` call throws: nothing, a `QuotaExceededError`, or any other error. */
  datatype Fault = NoFault | QuotaExceeded | OtherError

  class LocalStorage {
    var items: map<string, string>

    constructor (items: map<string, string>)
      ensures this.items == items
    {
      this.items := items;
    }

    /** `getItem(key)`: `null` (here `None`) for a key that is not stored. */
    function GetItem(key: string): (r: Option<string>)
      reads this
      ensures r.Some? <==> key in items
      ensures r.Some? ==> r.value == items[key]
    {
      if key in items then Some(items[key]) else None
    }

    /** `setItem(key, value)`: the pair is written, unless the call throws, in which case nothing changes. */
    method SetItem(key: string, value: string, fault: Fault) returns (thrown: Fault)
      modifies this
      ensures thrown == fault
      ensures fault == NoFault ==> items == old(items)[key := value]
      ensures fault != NoFault ==> items == old(items)
    {
      if fault == NoFault {
        items := items[key := value];
      }
      thrown := fault;
    }

    /** `clear()`: every pair is removed, unless the call throws. */
    method Clear(fails: bool) returns (thrown: bool)
      modifies this
      ensures thrown == fails
      ensures !fails ==> items == map[]
      ensures fails ==> items == old(items)
    {
      if !fails {
        items := map[];
      }
      thrown := fails;
    }
  }
}
