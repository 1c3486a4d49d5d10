/** The accumulation idiom scenario.py uses for both `data` and `msg`:
    `acc = piece + acc` for each item in turn, so that the latest piece
    ends up leftmost. */
module Prepend {

  /** The text left by starting from "" and prepending f(x) for each x of xs
      in order. */
  function Prepended<X>(xs: seq<X>, f: X -> string): string {
    if xs == [] then [] else f(xs[|xs| - 1]) + Prepended(xs[..|xs| - 1], f)
  }

  /** Prepending the items of a and then those of b leaves b's pieces to the
      left of a's. */
  lemma {:induction false} PrependedAppend<X>(a: seq<X>, b: seq<X>, f: X -> string)
    ensures Prepended(a + b, f) == Prepended(b, f) + Prepended(a, f)
    decreases |b|
  {
    if b == [] {
      assert a + b == a;
    } else {
      var ab := a + b;
      assert ab[..|ab| - 1] == a + b[..|b| - 1];
      PrependedAppend(a, b[..|b| - 1], f);
    }
  }

  /** Item j's piece stands between the pieces of the items after it (to its
      left) and those before it (to its right). */
  lemma PrependedAt<X>(xs: seq<X>, j: nat, f: X -> string)
    requires j < |xs|
    ensures Prepended(xs, f) == Prepended(xs[j + 1..], f) + f(xs[j]) + Prepended(xs[..j], f)
  {
    var a, d := xs[..j], xs[j + 1..];
    assert xs == (a + [xs[j]]) + d by {
      assert xs == xs[..j] + xs[j..];
      assert xs[j..] == [xs[j]] + d;
    }
    PrependedAround(a, xs[j], d, f);
  }

  lemma PrependedAround<X>(a: seq<X>, x: X, d: seq<X>, f: X -> string)
    ensures Prepended((a + [x]) + d, f) == Prepended(d, f) + f(x) + Prepended(a, f)
  {
    PrependedAppend(a + [x], d, f);
    PrependedAppend(a, [x], f);
    PrependedSingle(x, f);
  }

  lemma PrependedSingle<X>(x: X, f: X -> string)
    ensures Prepended([x], f) == f(x)
  {
    assert [x][..0] == [];
    assert f(x) + [] == f(x);
  }

  /** The first item's piece is rightmost. */
  lemma PrependedFirst<X>(xs: seq<X>, f: X -> string)
    requires xs != []
    ensures Prepended(xs, f) == Prepended(xs[1..], f) + f(xs[0])
  {
    PrependedAt(xs, 0, f);
    assert Prepended(xs[..0], f) == [];
  }

  /** When every piece has width w, the result has width w per item. */
  lemma {:induction false} PrependedLength<X>(xs: seq<X>, f: X -> string, w: nat)
    requires forall j :: 0 <= j < |xs| ==> |f(xs[j])| == w
    ensures |Prepended(xs, f)| == w * |xs|
    decreases |xs|
  {
    if xs != [] {
      var init := xs[..|xs| - 1];
      assert forall j :: 0 <= j < |init| ==> init[j] == xs[j];
      PrependedLength(init, f, w);
    }
  }

  /** Regrouping a concatenation. Stated over abstract pieces so that a proof
      about large texts can regroup them without unfolding what they are. */
  lemma Associative<T>(x: seq<T>, y: seq<T>, z: seq<T>)
    ensures x + (y + z) == x + y + z
  {
  }
}
