/**
  A Feistel network over arbitrary words: what makes the cipher reversible, and what a symmetry of its
  parts does to the whole, depend on neither the round function nor the way the two halves are mixed.
 */
module Feistel {

  datatype Halves<W> = Halves(l: W, r: W) {
    function Swap(): Halves<W> {
      Halves(r, l)
    }
  }

  /** `mix` combines the left half with the result of the round function `f`. */
  datatype Network<!W, !K> = Network(mix: (W, W) -> W, f: (W, K) -> W)

  function Round<W, K>(net: Network<W, K>, h: Halves<W>, key: K): Halves<W> {
    Halves(h.r, net.mix(h.l, net.f(h.r, key)))
  }

  /** The rounds for a list of sub-keys, first sub-key first. */
  function Rounds<W, K>(net: Network<W, K>, h: Halves<W>, keys: seq<K>): Halves<W> {
    if keys == [] then h
    else Round(net, Rounds(net, h, keys[..|keys| - 1]), keys[|keys| - 1])
  }

  function Reverse<K>(keys: seq<K>): (r: seq<K>)
    ensures |r| == |keys|
    ensures forall i :: 0 <= i < |r| ==> r[i] == keys[|keys| - 1 - i]
  {
    if keys == [] then [] else [keys[|keys| - 1]] + Reverse(keys[..|keys| - 1])
  }

  ghost predicate MixCancels<W(!new), K>(net: Network<W, K>) {
    forall x, y :: net.mix(net.mix(x, y), y) == x
  }

  lemma {:induction false} RoundsConcat<W, K>(net: Network<W, K>, h: Halves<W>, a: seq<K>, b: seq<K>)
    ensures Rounds(net, h, a + b) == Rounds(net, Rounds(net, h, a), b)
  {
    if b == [] {
      assert a + b == a;
    } else {
      assert (a + b)[..|a + b| - 1] == a + b[..|b| - 1];
      RoundsConcat(net, h, a, b[..|b| - 1]);
    }
  }

  /** Running a list of rounds backwards, between two exchanges of the halves, undoes it. */
  lemma {:induction false} RoundsUndone<W(!new), K>(net: Network<W, K>, h: Halves<W>, keys: seq<K>)
    requires MixCancels(net)
    ensures Rounds(net, Rounds(net, h, keys).Swap(), Reverse(keys)) == h.Swap()
  {
    if keys == [] {
    } else {
      var n := |keys| - 1;
      var before, after := Rounds(net, h, keys[..n]), Rounds(net, h, keys);
      RoundsConcat(net, after.Swap(), [keys[n]], Reverse(keys[..n]));
      assert Rounds(net, after.Swap(), [keys[n]]) == before.Swap() by {
        assert [keys[n]][..0] == [];
      }
      RoundsUndone(net, h, keys[..n]);
    }
  }

  lemma ReverseTwice<K>(keys: seq<K>)
    ensures Reverse(Reverse(keys)) == keys
  {
    assert forall i :: 0 <= i < |keys| ==> Reverse(Reverse(keys))[i] == keys[i];
  }

  // A symmetry of the network: a relation on words and one on sub-keys that every round keeps.

  type Relation<!A> = (A, A) -> bool

  ghost predicate KeptByMix<W(!new), K>(net: Network<W, K>, rel: Relation<W>) {
    forall a, b, x :: rel(a, b) ==> rel(net.mix(a, x), net.mix(b, x))
  }

  ghost predicate ErasedByF<W(!new), K(!new)>(net: Network<W, K>, rel: Relation<W>, keyRel: Relation<K>) {
    forall r, s, a, b :: rel(r, s) && keyRel(a, b) ==> net.f(r, a) == net.f(s, b)
  }

  ghost predicate RelatedHalves<W>(rel: Relation<W>, g: Halves<W>, h: Halves<W>) {
    rel(g.l, h.l) && rel(g.r, h.r)
  }

  ghost predicate RelatedKeys<K>(keyRel: Relation<K>, a: seq<K>, b: seq<K>) {
    |a| == |b| && forall i :: 0 <= i < |a| ==> keyRel(a[i], b[i])
  }

  lemma {:induction false} RoundsRelated<W(!new), K(!new)>(net: Network<W, K>, rel: Relation<W>, keyRel: Relation<K>,
      g: Halves<W>, h: Halves<W>, a: seq<K>, b: seq<K>)
    requires KeptByMix(net, rel) && ErasedByF(net, rel, keyRel)
    requires RelatedHalves(rel, g, h) && RelatedKeys(keyRel, a, b)
    ensures RelatedHalves(rel, Rounds(net, g, a), Rounds(net, h, b))
  {
    if a == [] {
    } else {
      var n := |a| - 1;
      RoundsRelated(net, rel, keyRel, g, h, a[..n], b[..n]);
      assert keyRel(a[n], b[n]);
    }
  }
}
