/** The Some/None datatype used for Python's `None` and for absent dictionary keys. */
module Wrappers {

  datatype Option<+T> = None | Some(value: T) {

    /** The value, or `default` when there is none (Python's `d.get(key, default)`). */
    function GetOr(default: T): T {
      match this
      case Some(v) => v
      case None => default
    }
  }

  /** `[f(x) for x in xs]` where `f` may fail: None as soon as one element fails. */
  function MapAll<A, B>(xs: seq<A>, f: A -> Option<B>): Option<seq<B>> {
    if xs == [] then Some([])
    else
      match MapAll(xs[..|xs| - 1], f)
      case None => None
      case Some(ys) =>
        match f(xs[|xs| - 1])
        case None => None
        case Some(y) => Some(ys + [y])
  }

  /** There is a result exactly when no element fails. */
  lemma {:induction false} MapAllSome<A, B>(xs: seq<A>, f: A -> Option<B>)
    ensures MapAll(xs, f).Some? <==> forall i :: 0 <= i < |xs| ==> f(xs[i]).Some?
  {
    if xs != [] {
      var init := xs[..|xs| - 1];
      MapAllSome(init, f);
      if MapAll(xs, f).Some? {
        forall i | 0 <= i < |xs| ensures f(xs[i]).Some? {
          if i < |init| {
            assert init[i] == xs[i];
          }
        }
      } else if MapAll(init, f).None? {
        var i :| 0 <= i < |init| && f(init[i]).None?;
        assert init[i] == xs[i];
      }
    }
  }

  /** The result holds the value of each element, one for one and in order. */
  lemma {:induction false} MapAllValues<A, B>(xs: seq<A>, f: A -> Option<B>)
    requires MapAll(xs, f).Some?
    ensures |MapAll(xs, f).value| == |xs|
    ensures forall i :: 0 <= i < |xs| ==> f(xs[i]) == Some(MapAll(xs, f).value[i])
  {
    if xs != [] {
      var init := xs[..|xs| - 1];
      MapAllValues(init, f);
      var ys := MapAll(init, f).value;
      var r := MapAll(xs, f).value;
      forall i | 0 <= i < |init| ensures f(xs[i]) == Some(r[i]) {
        assert init[i] == xs[i] && r[i] == ys[i];
      }
    }
  }

  /** One more element: its value is appended, or the whole sequence fails. */
  lemma MapAllStep<A, B>(xs: seq<A>, i: nat, f: A -> Option<B>)
    requires i < |xs| && MapAll(xs[..i], f).Some?
    ensures f(xs[i]).Some? ==> MapAll(xs[..i + 1], f) == Some(MapAll(xs[..i], f).value + [f(xs[i]).value])
    ensures f(xs[i]).None? ==> MapAll(xs, f).None?
  {
    assert xs[..i + 1][..i] == xs[..i];
    if f(xs[i]).None? {
      MapAllPrefixFails(xs, i + 1, f);
    }
  }

  /** Once a prefix fails, the whole sequence fails. */
  lemma {:induction false} MapAllPrefixFails<A, B>(xs: seq<A>, n: nat, f: A -> Option<B>)
    requires n <= |xs| && MapAll(xs[..n], f).None?
    ensures MapAll(xs, f).None?
    decreases |xs| - n
  {
    if n == |xs| {
      assert xs[..n] == xs;
    } else {
      assert xs[..n + 1][..n] == xs[..n];
      MapAllPrefixFails(xs, n + 1, f);
    }
  }
}
