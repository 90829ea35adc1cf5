/** The duplicate check (`hasDuplicate`) on the decoded indices, with the
    validator's `indexSet` as state that outlives a call. */
module Duplicates {

  /** Some value occurs at two different positions of `xs`. */
  predicate HasRepeat(xs: seq<int>) {
    exists i, j :: 0 <= i < j < |xs| && xs[i] == xs[j]
  }

  /** Some value of `xs` is already in `seen`. */
  predicate Meets(seen: set<int>, xs: seq<int>) {
    exists i :: 0 <= i < |xs| && xs[i] in seen
  }

  /** The values of `xs`. */
  function Elems(xs: seq<int>): (e: set<int>)
    ensures forall i :: 0 <= i < |xs| ==> xs[i] in e
    ensures forall x :: x in e ==> x in xs
  {
    set x | x in xs
  }

  /** What a scan leaves: whether it stopped at a value already present,
      and the set at that point. */
  datatype Scan = Scan(hit: bool, seen: set<int>)

  /** `indexSet.add` on each value of `xs` in turn, stopping at the first
      one `add` refuses because it is already present. */
  function AddAll(seen: set<int>, xs: seq<int>): (r: Scan)
    ensures seen <= r.seen <= seen + Elems(xs)
    ensures !r.hit ==> r.seen == seen + Elems(xs)
    decreases |xs|
  {
    if |xs| == 0 then Scan(false, seen)
    else if xs[0] in seen then Scan(true, seen)
    else
      var rest := AddAll(seen + {xs[0]}, xs[1..]);
      assert Elems(xs) == {xs[0]} + Elems(xs[1..]);
      rest
  }

  /** The scan stops exactly when a value of `xs` is already in the set or
      occurs twice in `xs`. */
  lemma {:induction false} AddAllHitIff(seen: set<int>, xs: seq<int>)
    ensures AddAll(seen, xs).hit <==> Meets(seen, xs) || HasRepeat(xs)
    decreases |xs|
  {
    if |xs| > 0 {
      FirstStep(seen, xs);
      if xs[0] !in seen {
        AddAllHitIff(seen + {xs[0]}, xs[1..]);
      }
    }
  }

  /** Past its first value, a scan looks for the rest of `xs` in the set
      grown by that value. */
  lemma FirstStep(seen: set<int>, xs: seq<int>)
    requires |xs| > 0
    ensures Meets(seen, xs) || HasRepeat(xs)
      <==> xs[0] in seen || Meets(seen + {xs[0]}, xs[1..]) || HasRepeat(xs[1..])
  {
    var tail := xs[1..];
    if Meets(seen + {xs[0]}, tail) {
      var i :| 0 <= i < |tail| && tail[i] in seen + {xs[0]};
      if tail[i] == xs[0] {
        assert xs[0] == xs[i + 1];
      } else {
        assert xs[i + 1] in seen;
      }
    }
    if HasRepeat(tail) {
      var i, j :| 0 <= i < j < |tail| && tail[i] == tail[j];
      assert xs[i + 1] == xs[j + 1];
    }
    if Meets(seen, xs) && xs[0] !in seen {
      var i :| 0 <= i < |xs| && xs[i] in seen;
      assert tail[i - 1] in seen + {xs[0]};
    }
    if HasRepeat(xs) {
      var i, j :| 0 <= i < j < |xs| && xs[i] == xs[j];
      if i == 0 {
        assert tail[j - 1] in seen + {xs[0]};
      } else {
        assert tail[i - 1] == tail[j - 1];
      }
    }
    if xs[0] in seen {
      assert Meets(seen, xs);
    }
  }

  /** Position `i` is where a scan of `xs` from `seen` stops: the values
      before it were each new when added, and `xs[i]` is already present. */
  predicate FirstHit(seen: set<int>, xs: seq<int>, i: int) {
    && 0 <= i < |xs|
    && xs[i] in seen + Elems(xs[..i])
    && forall t :: 0 <= t < i ==> xs[t] !in seen + Elems(xs[..t])
  }

  /** Past its first value, the prefixes of `xs` hold that value and the
      prefixes of the rest. */
  lemma ElemsOfPrefix(xs: seq<int>, t: nat)
    requires 1 <= t <= |xs|
    ensures Elems(xs[..t]) == {xs[0]} + Elems(xs[1..][..t - 1])
  {
    assert xs[..t] == [xs[0]] + xs[1..][..t - 1];
  }

  /** A scan that stops does so at its first hit, and the set then holds
      the start set plus exactly the values added before the hit. */
  lemma {:induction false} AddAllHitAt(seen: set<int>, xs: seq<int>)
    ensures AddAll(seen, xs).hit ==>
      exists i :: FirstHit(seen, xs, i) && AddAll(seen, xs).seen == seen + Elems(xs[..i])
    decreases |xs|
  {
    if |xs| > 0 {
      if xs[0] in seen {
        assert xs[..0] == [];
        assert FirstHit(seen, xs, 0);
      } else if AddAll(seen + {xs[0]}, xs[1..]).hit {
        var seen', tail := seen + {xs[0]}, xs[1..];
        AddAllHitAt(seen', tail);
        var i :| FirstHit(seen', tail, i) && AddAll(seen', tail).seen == seen' + Elems(tail[..i]);
        ElemsOfPrefix(xs, i + 1);
        forall t | 1 <= t < i + 1
          ensures xs[t] !in seen + Elems(xs[..t])
        {
          ElemsOfPrefix(xs, t);
          assert xs[t] == tail[t - 1];
        }
        assert xs[..0] == [];
        assert FirstHit(seen, xs, i + 1);
      }
    }
  }

  /** `hasDuplicate` as written: the scan's answer, and the set it leaves
      behind. Only a scan that found nothing clears the set; after a hit
      the set keeps the old values and every index added before the hit,
      so it meets `xs` again. */
  function HasDuplicate(indexSet: set<int>, xs: seq<int>): (r: Scan)
    ensures r.hit <==> Meets(indexSet, xs) || HasRepeat(xs)
    ensures !r.hit ==> r.seen == {}
    ensures r.hit ==> exists i :: FirstHit(indexSet, xs, i) && r.seen == indexSet + Elems(xs[..i])
    ensures r.hit ==> Meets(r.seen, xs)
  {
    AddAllHitIff(indexSet, xs);
    AddAllHitAt(indexSet, xs);
    var s := AddAll(indexSet, xs);
    if s.hit then s else Scan(false, {})
  }

  /** The duplicate check as intended: a scan that starts from an empty set
      every time, which reports exactly the repeated values. */
  function HasDuplicateFresh(xs: seq<int>): (r: bool)
    ensures r <==> HasRepeat(xs)
  {
    AddAllHitIff({}, xs);
    AddAll({}, xs).hit
  }

  /** From an empty set the code as written answers as intended, and
      leaves an empty set behind whenever the answer is "no duplicate". */
  lemma CleanSetAgrees(xs: seq<int>)
    ensures HasDuplicate({}, xs).hit == HasDuplicateFresh(xs)
    ensures !HasDuplicateFresh(xs) ==> HasDuplicate({}, xs).seen == {}
  {
    assert !Meets({}, xs);
  }

  /** A rejected `[1, 1]` leaves `1` in the set, and the next call then
      reports a duplicate in `[1, 2]`, which has none. */
  lemma StaleSetCounterexample()
    ensures HasDuplicate({}, [1, 1]) == Scan(true, {1})
    ensures HasDuplicate({1}, [1, 2]).hit && !HasRepeat([1, 2])
  {
    assert [1, 1][1..] == [1];
    var xs: seq<int> := [1, 2];
    assert xs[0] in {1};
    assert Meets({1}, xs);
  }
}
