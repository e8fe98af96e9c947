/** An order-preserving filter-map over a sequence: the shape shared by the
    scanner's `old_files.append` loop and the watcher's delete-event filter.
    `Select(s, f)` is what a loop produces that walks `s` from left to right
    and appends `v` whenever `f` gives `Some(v)`. */
module Selection {

  datatype Option<T> = None | Some(value: T)

  /** The list holding `o`'s value, or nothing. */
  function Keep<U>(o: Option<U>): (r: seq<U>)
    ensures |r| <= 1
    ensures r == [] <==> o.None?
  {
    if o.Some? then [o.value] else []
  }

  /** The values `f` keeps from `s`, in the order of `s`. Defined from the last
      element so that it follows a left-to-right loop one step at a time. */
  function Select<T, U>(s: seq<T>, f: T -> Option<U>): seq<U>
  {
    if s == [] then [] else Select(s[..|s| - 1], f) + Keep(f(s[|s| - 1]))
  }

  /** The positions of `s` whose element `f` keeps, in ascending order. */
  function Kept<T, U>(s: seq<T>, f: T -> Option<U>): seq<nat>
  {
    if s == [] then []
    else Kept(s[..|s| - 1], f) + (if f(s[|s| - 1]).Some? then [|s| - 1] else [])
  }

  /** Selecting from a concatenation selects from each part in turn: the loop
      may be split at any point. */
  lemma {:induction false} SelectAppend<T, U>(a: seq<T>, b: seq<T>, f: T -> Option<U>)
    ensures Select(a + b, f) == Select(a, f) + Select(b, f)
    decreases |b|
  {
    if b == [] {
      assert a + b == a;
    } else {
      var b' := b[..|b| - 1];
      assert (a + b)[..|a + b| - 1] == a + b';
      assert (a + b)[|a + b| - 1] == b[|b| - 1];
      SelectAppend(a, b', f);
    }
  }

  /** Never more values than inputs. */
  lemma {:induction false} SelectLength<T, U>(s: seq<T>, f: T -> Option<U>)
    ensures |Select(s, f)| <= |s|
    decreases |s|
  {
    if s != [] {
      SelectLength(s[..|s| - 1], f);
    }
  }

  /** Every kept position is a position of `s`, the positions strictly
      increase, and the value at place `m` of the selection is exactly what
      `f` gives for the element at the `m`-th kept position. */
  lemma {:induction false} KeptMatchesSelect<T, U>(s: seq<T>, f: T -> Option<U>)
    ensures |Kept(s, f)| == |Select(s, f)|
    ensures forall m :: 0 <= m < |Kept(s, f)| ==>
      Kept(s, f)[m] < |s| && f(s[Kept(s, f)[m]]) == Some(Select(s, f)[m])
    ensures forall m, n :: 0 <= m < n < |Kept(s, f)| ==> Kept(s, f)[m] < Kept(s, f)[n]
    decreases |s|
  {
    if s != [] {
      var init := s[..|s| - 1];
      KeptMatchesSelect(init, f);
      forall m | 0 <= m < |Kept(init, f)|
        ensures s[Kept(init, f)[m]] == init[Kept(init, f)[m]]
      {
      }
    }
  }

  /** A position is kept exactly when `f` keeps its element: no qualifying
      element is missed and no other element is selected. */
  lemma {:induction false} KeptExactly<T, U>(s: seq<T>, f: T -> Option<U>, k: nat)
    requires k < |s|
    ensures k in Kept(s, f) <==> f(s[k]).Some?
    decreases |s|
  {
    var init := s[..|s| - 1];
    KeptBelow(init, f);
    if k < |s| - 1 {
      assert s[k] == init[k];
      KeptExactly(init, f, k);
    }
  }

  /** Every kept position of `s` lies below `|s|`. */
  lemma {:induction false} KeptBelow<T, U>(s: seq<T>, f: T -> Option<U>)
    ensures forall m :: 0 <= m < |Kept(s, f)| ==> Kept(s, f)[m] < |s|
    decreases |s|
  {
    if s != [] {
      KeptBelow(s[..|s| - 1], f);
    }
  }

  /** A value is selected if and only if `f` gives it for some element. */
  lemma {:induction false} SelectMembership<T, U>(s: seq<T>, f: T -> Option<U>, v: U)
    ensures v in Select(s, f) <==> exists k :: 0 <= k < |s| && f(s[k]) == Some(v)
  {
    KeptMatchesSelect(s, f);
    if v in Select(s, f) {
      var m :| 0 <= m < |Select(s, f)| && Select(s, f)[m] == v;
      var k := Kept(s, f)[m];
      assert 0 <= k < |s| && f(s[k]) == Some(v);
    }
    if exists k :: 0 <= k < |s| && f(s[k]) == Some(v) {
      var k :| 0 <= k < |s| && f(s[k]) == Some(v);
      KeptExactly(s, f, k);
      var m :| 0 <= m < |Kept(s, f)| && Kept(s, f)[m] == k;
      assert Select(s, f)[m] == v;
    }
  }
}
