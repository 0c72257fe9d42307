/**
 * `URLSearchParams` as both link builders use it (src/app/page.tsx:151-155,
 * src/app/Controls.tsx:48-52): an ordered list of name/value pairs filled with
 * `set` and read back with `get`/`getAll`. Percent-encoding and the final
 * `/?...` string are not modelled.
 */
module QueryString {
  import opened Wrappers

  /** The pairs of a query string, in order. */
  type Pairs = seq<(string, string)>

  /** `getAll(name)`: every value stored under `name`, in order. */
  function GetAll(h: Pairs, name: string): (r: seq<string>)
    ensures |r| <= |h|
  {
    if h == [] then []
    else (if h[0].0 == name then [h[0].1] else []) + GetAll(h[1..], name)
  }

  /** `get(name)`: the first value stored under `name`, if any. */
  function Get(h: Pairs, name: string): Option<string> {
    var all := GetAll(h, name);
    if all == [] then None else Some(all[0])
  }

  /** The pairs of `h` whose name is not `name`. */
  function RemoveAll(h: Pairs, name: string): (r: Pairs)
    ensures |r| <= |h|
  {
    if h == [] then []
    else (if h[0].0 == name then [] else [h[0]]) + RemoveAll(h[1..], name)
  }

  /**
   * `set(name, value)`: the first pair named `name` takes the value and the
   * other pairs with that name are dropped; with no such pair, one is appended.
   */
  function Set(h: Pairs, name: string, value: string): (r: Pairs)
    ensures |r| <= |h| + 1
  {
    if h == [] then [(name, value)]
    else if h[0].0 == name then [(name, value)] + RemoveAll(h[1..], name)
    else [h[0]] + Set(h[1..], name, value)
  }

  lemma {:induction false} GetAllRemoveAll(h: Pairs, name: string, other: string)
    ensures GetAll(RemoveAll(h, name), other) == if other == name then [] else GetAll(h, other)
  {
    if h != [] {
      GetAllRemoveAll(h[1..], name, other);
      var rest := RemoveAll(h[1..], name);
      if h[0].0 == name {
        assert RemoveAll(h, name) == rest;
      } else {
        assert ([h[0]] + rest)[1..] == rest;
      }
    }
  }

  /**
   * After `set(name, value)`, `getAll(name)` is exactly `[value]` and every
   * other name keeps its values.
   */
  lemma {:induction false} GetAllSet(h: Pairs, name: string, value: string, other: string)
    ensures GetAll(Set(h, name, value), other) == if other == name then [value] else GetAll(h, other)
  {
    if h != [] {
      if h[0].0 == name {
        GetAllRemoveAll(h[1..], name, other);
        assert ([(name, value)] + RemoveAll(h[1..], name))[1..] == RemoveAll(h[1..], name);
      } else {
        GetAllSet(h[1..], name, value, other);
        assert ([h[0]] + Set(h[1..], name, value))[1..] == Set(h[1..], name, value);
      }
    }
  }

  /** A name not yet present is appended at the end. */
  lemma {:induction false} SetAppendsNew(h: Pairs, name: string, value: string)
    requires GetAll(h, name) == []
    ensures Set(h, name, value) == h + [(name, value)]
  {
    if h != [] {
      assert h[0].0 != name;
      SetAppendsNew(h[1..], name, value);
      assert h == [h[0]] + h[1..];
    }
  }
}
