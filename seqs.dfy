/** Searching and editing sequences: the list operations the contact book
    relies on (first match, removal of one element, distinct keys). */
module Seqs {
  import opened Outcomes

  /** The position of the first element equal to `x`, if any. */
  function IndexOf<T(==)>(s: seq<T>, x: T): (r: Option<nat>)
    ensures r.Some? ==> r.value < |s| && s[r.value] == x
    ensures r.Some? ==> forall j :: 0 <= j < r.value ==> s[j] != x
    ensures r.None? <==> x !in s
    decreases |s|
  {
    if s == [] then None
    else if s[0] == x then Some(0)
    else
      match IndexOf(s[1..], x)
      case None => None
      case Some(i) => Some(i + 1)
  }

  /** `s` without its element at position `i`. */
  function RemoveAt<T>(s: seq<T>, i: nat): seq<T>
    requires i < |s|
  {
    s[..i] + s[i + 1..]
  }

  /** Removing one element keeps every other element, in the same relative
      order, and takes exactly one copy of the removed value out of the
      multiset of elements. */
  lemma RemoveAtKeepsOthers<T>(s: seq<T>, i: nat)
    requires i < |s|
    ensures |RemoveAt(s, i)| == |s| - 1
    ensures forall j :: 0 <= j < i ==> RemoveAt(s, i)[j] == s[j]
    ensures forall j :: i <= j < |s| - 1 ==> RemoveAt(s, i)[j] == s[j + 1]
    ensures multiset(RemoveAt(s, i)) + multiset{s[i]} == multiset(s)
  {
    assert s == s[..i] + [s[i]] + s[i + 1..];
  }

  /** No value occurs twice. */
  predicate Distinct<T(==)>(s: seq<T>) {
    forall i, j :: 0 <= i < j < |s| ==> s[i] != s[j]
  }

  /** `s` without the element equal to `x` (all of them; in a sequence of
      distinct values there is at most one). */
  function Without<T(==)>(s: seq<T>, x: T): (r: seq<T>)
    ensures x !in r
    ensures forall i :: 0 <= i < |r| ==> r[i] in s && r[i] != x
    ensures forall i :: 0 <= i < |s| && s[i] != x ==> s[i] in r
    ensures |r| <= |s|
    decreases |s|
  {
    if s == [] then []
    else if s[0] == x then Without(s[1..], x)
    else [s[0]] + Without(s[1..], x)
  }

  /** Removing a value from a sequence of distinct values keeps the others
      distinct and in their old relative order: if `a` came before `b` it
      still does. */
  lemma {:induction false} WithoutKeepsOrder<T>(s: seq<T>, x: T, a: T, b: T)
    requires Distinct(s)
    requires a != x && b != x
    requires IndexOf(s, a).Some? && IndexOf(s, b).Some?
    requires IndexOf(s, a).value < IndexOf(s, b).value
    ensures Distinct(Without(s, x))
    ensures IndexOf(Without(s, x), a).Some? && IndexOf(Without(s, x), b).Some?
    ensures IndexOf(Without(s, x), a).value < IndexOf(Without(s, x), b).value
    decreases |s|
  {
    WithoutDistinct(s, x);
    if s[0] == x {
      WithoutKeepsOrder(s[1..], x, a, b);
    } else if s[0] == a {
    } else {
      assert s[0] != b;
      WithoutKeepsOrder(s[1..], x, a, b);
    }
  }

  lemma {:induction false} WithoutDistinct<T>(s: seq<T>, x: T)
    requires Distinct(s)
    ensures Distinct(Without(s, x))
    decreases |s|
  {
    if s != [] {
      WithoutDistinct(s[1..], x);
      if s[0] != x {
        var r := Without(s, x);
        assert r == [s[0]] + Without(s[1..], x);
        assert s[0] !in Without(s[1..], x);
        forall i, j | 0 <= i < j < |r| ensures r[i] != r[j] {
          if i == 0 {
            assert r[j] in Without(s[1..], x);
          } else {
            assert r[i] == Without(s[1..], x)[i - 1];
          }
        }
      }
    }
  }

  /** Equal sequences with the same ends have the same middle. */
  lemma MiddleOf<T>(p: seq<T>, x: seq<T>, y: seq<T>, q: seq<T>)
    requires p + x + q == p + y + q
    ensures x == y
  {
    assert |x| == |y|;
    assert x == (p + x + q)[|p|..|p| + |x|];
    assert y == (p + y + q)[|p|..|p| + |y|];
  }

  /** A non-empty sequence is its head followed by its tail. */
  lemma HeadTail<T>(s: seq<T>)
    requires s != []
    ensures [s[0]] + s[1..] == s
  {
  }

  // ---------- collecting per-element outcomes ----------

  /** A loop that appends each element's value, skips the elements that
      give none and stops at the first error. */
  function Collect<T>(rs: seq<Result<Option<T>>>): Result<seq<T>>
    decreases |rs|
  {
    if rs == [] then Ok([])
    else
      match Collect(rs[..|rs| - 1])
      case Err(e) => Err(e)
      case Ok(vs) =>
        match rs[|rs| - 1]
        case Err(e) => Err(e)
        case Ok(None) => Ok(vs)
        case Ok(Some(v)) => Ok(vs + [v])
  }

  /** A single element with a value collects to that value. */
  lemma CollectOne<T>(v: T)
    ensures Collect([Ok(Some(v))]) == Ok([v])
  {
    var rs: seq<Result<Option<T>>> := [Ok(Some(v))];
    assert rs[..0] == [];
    assert [] + [v] == [v];
  }

  /** The positions of the elements that give a value, in increasing order. */
  function Kept<T>(rs: seq<Result<Option<T>>>): seq<nat>
    decreases |rs|
  {
    if rs == [] then []
    else if rs[|rs| - 1].Ok? && rs[|rs| - 1].value.Some? then Kept(rs[..|rs| - 1]) + [|rs| - 1]
    else Kept(rs[..|rs| - 1])
  }

  /** The collection fails exactly when some element fails, and then with
      the error of the first one that fails. */
  lemma {:induction false} CollectFailsAtFirstError<T>(rs: seq<Result<Option<T>>>)
    ensures Collect(rs).Err? <==> exists i :: 0 <= i < |rs| && rs[i].Err?
    ensures Collect(rs).Err? ==> exists i :: 0 <= i < |rs| && rs[i].Err? && Collect(rs).error == rs[i].error
                                             && forall k :: 0 <= k < i ==> rs[k].Ok?
    decreases |rs|
  {
    if rs != [] {
      var n := |rs| - 1;
      var init := rs[..n];
      CollectFailsAtFirstError(init);
      assert forall k :: 0 <= k < n ==> init[k] == rs[k];
      if Collect(init).Err? {
        var i :| 0 <= i < n && init[i].Err? && Collect(init).error == init[i].error
                 && forall k :: 0 <= k < i ==> init[k].Ok?;
        assert rs[i].Err?;
      }
    }
  }

  /** Once a prefix has failed, the elements after it change nothing: the
      loop has already stopped. */
  lemma {:induction false} CollectStopsAtError<T>(rs: seq<Result<Option<T>>>, k: nat)
    requires k <= |rs| && Collect(rs[..k]).Err?
    ensures Collect(rs) == Collect(rs[..k])
    decreases |rs| - k
  {
    if k < |rs| {
      var n := |rs| - 1;
      assert rs[..n][..k] == rs[..k];
      CollectStopsAtError(rs[..n], k);
    } else {
      assert rs[..k] == rs;
    }
  }

  /** The kept positions increase, each holds a value, and every element
      that holds a value is kept. */
  lemma {:induction false} KeptAreTheValues<T>(rs: seq<Result<Option<T>>>)
    ensures var ix := Kept(rs);
      (forall j :: 0 <= j < |ix| ==> ix[j] < |rs| && rs[ix[j]].Ok? && rs[ix[j]].value.Some?)
      && (forall j, k :: 0 <= j < k < |ix| ==> ix[j] < ix[k])
      && (forall i :: 0 <= i < |rs| && rs[i].Ok? && rs[i].value.Some? ==> i in ix)
    decreases |rs|
  {
    if rs != [] {
      var n := |rs| - 1;
      var init := rs[..n];
      KeptAreTheValues(init);
      var ix0, ix := Kept(init), Kept(rs);
      assert forall i :: 0 <= i < n ==> init[i] == rs[i];
      if rs[n].Ok? && rs[n].value.Some? {
        assert ix == ix0 + [n];
        assert ix[|ix0|] == n;
      } else {
        assert ix == ix0;
      }
    }
  }

  /** A successful collection holds the kept elements' values, in order. */
  lemma {:induction false} CollectIsKeptValues<T>(rs: seq<Result<Option<T>>>)
    requires Collect(rs).Ok?
    ensures var vs, ix := Collect(rs).value, Kept(rs);
      |ix| == |vs| && forall j :: 0 <= j < |ix| ==> ix[j] < |rs| && rs[ix[j]] == Ok(Some(vs[j]))
    decreases |rs|
  {
    if rs != [] {
      var n := |rs| - 1;
      var init := rs[..n];
      CollectIsKeptValues(init);
      KeptAreTheValues(init);
      var vs0, ix0 := Collect(init).value, Kept(init);
      var vs, ix := Collect(rs).value, Kept(rs);
      assert forall j :: 0 <= j < |ix0| ==> rs[ix0[j]] == init[ix0[j]];
      if rs[n].Ok? && rs[n].value.Some? {
        assert ix == ix0 + [n] && vs == vs0 + [rs[n].value.value];
      } else {
        assert ix == ix0 && vs == vs0;
      }
    }
  }
}
