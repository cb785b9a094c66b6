/**
 Order-preserving selection from a sequence: keep the elements a partial map
 sends to `Some`, replaced by what it sends them to. This is the shape of every
 collecting loop in the file selector and of the archive's entry selection.
 */
module Seqs {
  import opened Options

  function FilterMap<T, U>(f: T -> Option<U>, xs: seq<T>): (r: seq<U>)
    ensures |r| <= |xs|
  {
    if xs == [] then []
    else (if f(xs[0]).Some? then [f(xs[0]).value] else []) + FilterMap(f, xs[1..])
  }

  /** Selection distributes over concatenation: the selected order is the input order. */
  lemma {:induction false} FilterMapAppend<T, U>(f: T -> Option<U>, xs: seq<T>, ys: seq<T>)
    ensures FilterMap(f, xs + ys) == FilterMap(f, xs) + FilterMap(f, ys)
  {
    if xs == [] {
      assert xs + ys == ys;
    } else {
      var head := if f(xs[0]).Some? then [f(xs[0]).value] else [];
      assert (xs + ys)[0] == xs[0];
      assert (xs + ys)[1..] == xs[1..] + ys;
      calc {
        FilterMap(f, xs + ys);
        head + FilterMap(f, xs[1..] + ys);
        { FilterMapAppend(f, xs[1..], ys); }
        head + (FilterMap(f, xs[1..]) + FilterMap(f, ys));
        (head + FilterMap(f, xs[1..])) + FilterMap(f, ys);
      }
    }
  }

  /** Selecting from one more element at the end appends at most its image. */
  lemma FilterMapSnoc<T, U>(f: T -> Option<U>, xs: seq<T>, x: T)
    ensures FilterMap(f, xs + [x]) == FilterMap(f, xs) + (if f(x).Some? then [f(x).value] else [])
  {
    FilterMapAppend(f, xs, [x]);
    assert [x][1..] == [];
  }

  /** Exactly the images of the kept elements occur in the selection. */
  lemma {:induction false} FilterMapMember<T, U>(f: T -> Option<U>, xs: seq<T>, y: U)
    ensures y in FilterMap(f, xs) <==> exists i :: 0 <= i < |xs| && f(xs[i]) == Some(y)
  {
    if xs != [] {
      FilterMapMember(f, xs[1..], y);
      if exists i :: 0 <= i < |xs| && f(xs[i]) == Some(y) {
        var i :| 0 <= i < |xs| && f(xs[i]) == Some(y);
        if i > 0 {
          assert f(xs[1..][i - 1]) == Some(y);
        }
      }
      if exists i :: 0 <= i < |xs[1..]| && f(xs[1..][i]) == Some(y) {
        var i :| 0 <= i < |xs[1..]| && f(xs[1..][i]) == Some(y);
        assert f(xs[i + 1]) == Some(y);
      }
    }
  }

  /** Nothing is dropped exactly when every element is kept. */
  lemma {:induction false} FilterMapLength<T, U>(f: T -> Option<U>, xs: seq<T>)
    ensures |FilterMap(f, xs)| == |xs| <==> forall i :: 0 <= i < |xs| ==> f(xs[i]).Some?
  {
    if xs != [] {
      FilterMapLength(f, xs[1..]);
      if forall i :: 0 <= i < |xs[1..]| ==> f(xs[1..][i]).Some? {
        assert forall i :: 1 <= i < |xs| ==> f(xs[i]).Some? by {
          forall i | 1 <= i < |xs| ensures f(xs[i]).Some? {
            assert xs[i] == xs[1..][i - 1];
          }
        }
      }
    }
  }

  /**
   When the kept elements have pairwise different keys, so does the selection:
   no two selected values share a key.
   */
  lemma {:induction false} FilterMapDistinct<T, U, K>(f: T -> Option<U>, key: U -> K, xs: seq<T>)
    requires forall i, j :: 0 <= i < j < |xs| && f(xs[i]).Some? && f(xs[j]).Some? ==>
      key(f(xs[i]).value) != key(f(xs[j]).value)
    ensures forall a, b :: 0 <= a < b < |FilterMap(f, xs)| ==>
      key(FilterMap(f, xs)[a]) != key(FilterMap(f, xs)[b])
  {
    if xs != [] {
      var tail := FilterMap(f, xs[1..]);
      FilterMapDistinct(f, key, xs[1..]);
      if f(xs[0]).Some? {
        var y := f(xs[0]).value;
        forall b | 0 <= b < |tail|
          ensures key(y) != key(tail[b])
        {
          FilterMapMember(f, xs[1..], tail[b]);
          var j :| 0 <= j < |xs[1..]| && f(xs[1..][j]) == Some(tail[b]);
          assert f(xs[j + 1]) == Some(tail[b]);
        }
      }
    }
  }
}
