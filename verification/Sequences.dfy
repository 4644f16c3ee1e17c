/** Concatenation of a list of pieces, and cutting a sequence into blocks of a fixed size. */
module Sequences {
  import opened NumberTheory

  function Flatten<T>(pieces: seq<seq<T>>): seq<T>
    decreases |pieces|
  {
    if pieces == [] then [] else pieces[0] + Flatten(pieces[1..])
  }

  lemma {:induction false} FlattenConcat<T>(x: seq<seq<T>>, y: seq<seq<T>>)
    ensures Flatten(x + y) == Flatten(x) + Flatten(y)
    decreases |x|
  {
    if x == [] {
      assert x + y == y;
    } else {
      FlattenConcat(x[1..], y);
      assert (x + y)[1..] == x[1..] + y;
    }
  }

  lemma FlattenSnoc<T>(x: seq<seq<T>>, last: seq<T>)
    ensures Flatten(x + [last]) == Flatten(x) + last
  {
    FlattenConcat(x, [last]);
    assert Flatten([last]) == last + Flatten([last][1..]) == last;
  }

  lemma FlattenTake<T>(pieces: seq<seq<T>>, k: nat)
    requires k < |pieces|
    ensures Flatten(pieces[..k + 1]) == Flatten(pieces[..k]) + pieces[k]
  {
    assert pieces[..k + 1] == pieces[..k] + [pieces[k]];
    FlattenSnoc(pieces[..k], pieces[k]);
  }

  // ---------- Blocks of a fixed size ----------

  /** The complete blocks at the front of s. */
  function Blocks<T>(s: seq<T>, size: nat): (blocks: seq<seq<T>>)
    requires size > 0
    decreases |s|
  {
    if |s| < size then [] else [s[..size]] + Blocks(s[size..], size)
  }

  /** What is left after the complete blocks. */
  function Remainder<T>(s: seq<T>, size: nat): (rest: seq<T>)
    requires size > 0
    ensures |rest| < size
    decreases |s|
  {
    if |s| < size then s else Remainder(s[size..], size)
  }

  /** The blocks of s, with a shorter last one when the size does not divide the length. */
  function Split<T>(s: seq<T>, size: nat): (pieces: seq<seq<T>>)
    requires size > 0
  {
    if Remainder(s, size) == [] then Blocks(s, size) else Blocks(s, size) + [Remainder(s, size)]
  }

  lemma {:induction false} BlocksJoin<T>(s: seq<T>, size: nat)
    requires size > 0
    ensures Flatten(Blocks(s, size)) + Remainder(s, size) == s
    decreases |s|
  {
    if |s| >= size {
      BlocksJoin(s[size..], size);
      assert Blocks(s, size)[1..] == Blocks(s[size..], size);
      assert s == s[..size] + s[size..];
    }
  }

  lemma {:induction false} BlocksAreFull<T>(s: seq<T>, size: nat)
    requires size > 0
    ensures forall i :: 0 <= i < |Blocks(s, size)| ==> |Blocks(s, size)[i]| == size
    decreases |s|
  {
    if |s| >= size {
      BlocksAreFull(s[size..], size);
    }
  }

  /** Splitting loses nothing, and every piece but the last is full. */
  lemma SplitJoins<T>(s: seq<T>, size: nat)
    requires size > 0
    ensures Flatten(Split(s, size)) == s
    ensures forall i :: 0 <= i < |Split(s, size)| ==> 0 < |Split(s, size)[i]| <= size
    ensures forall i :: 0 <= i < |Split(s, size)| - 1 ==> |Split(s, size)[i]| == size
  {
    BlocksJoin(s, size);
    BlocksAreFull(s, size);
    FlattenSnoc(Blocks(s, size), Remainder(s, size));
  }

  lemma {:induction false} RemainderLength<T>(s: seq<T>, size: nat)
    requires size > 0
    ensures |Remainder(s, size)| == |s| % size
    decreases |s|
  {
    if |s| >= size {
      RemainderLength(s[size..], size);
      ModOfLess(|s|, size);
    }
  }

  lemma ModOfLess(n: nat, size: nat)
    requires 0 < size <= n
    ensures (n - size) % size == n % size
  {
    var q, r := (n - size) / size, (n - size) % size;
    Distribute(size, q, 1);
    DivModUnique(n, q + 1, r, size);
  }

  /** The last piece is full exactly when the size divides the length. */
  lemma LastPiece<T>(s: seq<T>, size: nat)
    requires size > 0 && s != []
    ensures var pieces := Split(s, size);
            && pieces != []
            && (|pieces[|pieces| - 1]| < size <==> |s| % size != 0)
  {
    RemainderLength(s, size);
    BlocksAreFull(s, size);
    SplitStep(s, size);
  }

  function Least(a: nat, b: nat): nat {
    if a <= b then a else b
  }

  lemma LeastStep(k: nat, size: nat, n: nat)
    requires k > 0 && size <= n
    ensures (k - 1) * size >= 0
    ensures k * size >= 0 && Least(k * size, n) == size + Least((k - 1) * size, n - size)
  {
    Distribute(size, k, 1);
  }

  lemma {:induction false} SplitFront<T>(s: seq<T>, size: nat, k: nat)
    requires size > 0 && k <= |Split(s, size)|
    ensures k * size >= 0 && Flatten(Split(s, size)[..k]) == s[..Least(k * size, |s|)]
    decreases k
  {
    var pieces := Split(s, size);
    SplitStep(s, size);
    hide Split, Least;
    if k > 0 && |s| >= size {
      var rest := s[size..];
      SplitFront(rest, size, k - 1);
      LeastStep(k, size, |s|);
      assert pieces[..k] == [s[..size]] + Split(rest, size)[..k - 1];
    } else if k > 0 {
      SplitShort(s, size, k);
    }
  }

  lemma SplitShort<T>(s: seq<T>, size: nat, k: nat)
    requires 0 < |s| < size && 0 < k <= |Split(s, size)|
    ensures k * size >= 0 && Flatten(Split(s, size)[..k]) == s[..Least(k * size, |s|)]
  {
    SplitStep(s, size);
    assert k == 1 && Split(s, size)[..k] == [s];
  }

  /** The first k pieces are the first k * size elements, and the others the rest. */
  lemma SplitTake<T>(s: seq<T>, size: nat, k: nat)
    requires size > 0 && k <= |Split(s, size)|
    ensures k * size >= 0
    ensures Flatten(Split(s, size)[..k]) == s[..Least(k * size, |s|)]
    ensures Flatten(Split(s, size)[k..]) == s[Least(k * size, |s|)..]
  {
    var pieces := Split(s, size);
    SplitFront(s, size, k);
    SplitJoins(s, size);
    FlattenConcat(pieces[..k], pieces[k..]);
    assert pieces[..k] + pieces[k..] == pieces;
  }

  /** Cutting may stop after any prefix and go on with what was left over. */
  lemma {:induction false} BlocksResume<T>(s: seq<T>, more: seq<T>, size: nat)
    requires size > 0
    ensures Blocks(s + more, size) == Blocks(s, size) + Blocks(Remainder(s, size) + more, size)
    ensures Remainder(s + more, size) == Remainder(Remainder(s, size) + more, size)
    decreases |s|
  {
    if |s| >= size {
      BlocksResume(s[size..], more, size);
      assert (s + more)[..size] == s[..size] && (s + more)[size..] == s[size..] + more;
    }
  }

  lemma BlocksFront<T>(s: seq<T>, size: nat)
    requires 0 < size <= |s|
    ensures Blocks(s, size) == [s[..size]] + Blocks(s[size..], size)
    ensures Remainder(s, size) == Remainder(s[size..], size)
  {
  }

  lemma BlocksNone<T>(s: seq<T>, size: nat)
    requires |s| < size
    ensures Blocks(s, size) == [] && Remainder(s, size) == s
  {
  }

  /** A first full block comes off the front. */
  lemma SplitStep<T>(s: seq<T>, size: nat)
    requires size > 0
    ensures |s| >= size ==> Split(s, size) == [s[..size]] + Split(s[size..], size)
    ensures 0 < |s| < size ==> Split(s, size) == [s]
    ensures s == [] <==> Split(s, size) == []
  {
  }

  /** Equal-sized blocks followed by a shorter non-empty piece are their own split. */
  lemma {:induction false} SplitOfPieces<T>(pieces: seq<seq<T>>, size: nat)
    requires size > 0
    requires forall i :: 0 <= i < |pieces| ==> 0 < |pieces[i]| <= size
    requires forall i :: 0 <= i < |pieces| - 1 ==> |pieces[i]| == size
    ensures Split(Flatten(pieces), size) == pieces
    decreases |pieces|
  {
    if pieces != [] {
      var s, rest := Flatten(pieces), Flatten(pieces[1..]);
      assert s == pieces[0] + rest;
      if |pieces| > 1 {
        assert forall i :: 0 <= i < |pieces[1..]| - 1 ==> pieces[1..][i] == pieces[i + 1];
        SplitOfPieces(pieces[1..], size);
        assert s[..size] == pieces[0] && s[size..] == rest;
        SplitStep(s, size);
      } else {
        assert pieces[1..] == [] && s == pieces[0];
        if |s| == size {
          assert s[..size] == s && s[size..] == [];
        }
        SplitStep(s, size);
      }
    }
  }
}
