/**
 * `Array.prototype.filter` with a callback that only reads its argument, as
 * the page's name filter (src/app/page.tsx:310) and the board grouping
 * (src/app/Controls.tsx:23-24) use it.
 */
module Arrays {

  /** `s.filter(keep)`. */
  function Keep<T>(s: seq<T>, keep: T -> bool): (r: seq<T>)
    ensures |r| <= |s|
  {
    if s == [] then [] else (if keep(s[0]) then [s[0]] else []) + Keep(s[1..], keep)
  }

  lemma {:induction false} KeepEverything<T>(s: seq<T>, keep: T -> bool)
    requires forall x :: x in s ==> keep(x)
    ensures Keep(s, keep) == s
  {
    if s != [] {
      KeepEverything(s[1..], keep);
      assert s == [s[0]] + s[1..];
    }
  }

  /** An element is kept exactly when it is in the input and passes the test. */
  lemma {:induction false} KeepMembership<T>(s: seq<T>, keep: T -> bool, x: T)
    ensures x in Keep(s, keep) <==> x in s && keep(x)
  {
    if s != [] {
      KeepMembership(s[1..], keep, x);
      assert s == [s[0]] + s[1..];
    }
  }

  lemma {:induction false} KeepCount<T>(s: seq<T>, keep: T -> bool, x: T)
    ensures multiset(Keep(s, keep))[x] == if keep(x) then multiset(s)[x] else 0
  {
    if s != [] {
      KeepCount(s[1..], keep, x);
      assert s == [s[0]] + s[1..];
    }
  }

  lemma KeepCons<T>(x: T, s: seq<T>, keep: T -> bool)
    ensures Keep([x] + s, keep) == (if keep(x) then [x] else []) + Keep(s, keep)
  {
    assert ([x] + s)[1..] == s;
  }

  lemma {:induction false} KeepAppend<T>(a: seq<T>, b: seq<T>, keep: T -> bool)
    ensures Keep(a + b, keep) == Keep(a, keep) + Keep(b, keep)
  {
    if a == [] {
      assert a + b == b;
    } else {
      var x, t := a[0], a[1..];
      var head := if keep(x) then [x] else [];
      calc {
        Keep(a + b, keep);
        { assert a + b == [x] + (t + b); }
        Keep([x] + (t + b), keep);
        { KeepCons(x, t + b, keep); }
        head + Keep(t + b, keep);
        { KeepAppend(t, b, keep); }
        head + (Keep(t, keep) + Keep(b, keep));
        (head + Keep(t, keep)) + Keep(b, keep);
        { KeepCons(x, t, keep); assert a == [x] + t; }
        Keep(a, keep) + Keep(b, keep);
      }
    }
  }
}
