// The doubled 7-bag: `refillBag` and the draw of `getRandomTetromino`, as
// pure functions of the bag's contents. The bag holds catalog matrices; since
// no two catalog entries are equal (`ShapesDistinct`), each is represented by
// its key. The random index of the source is a parameter `i`, `0 <= i < |bag|`.
module Bag {
  import opened Shapes

  /** The bag `refillBag` builds, `[...allShapes, ...allShapes]`: the catalog
      keys twice over, 14 entries, two of each kind. */
  function Refilled(): (bag: seq<Kind>)
    ensures |bag| == 14
    ensures forall k :: multiset(bag)[k] == 2
  {
    RefilledTwice();
    forall k ensures multiset(Keys())[k] == 1 {
      KeyOnce(k);
    }
    seq(14, i requires 0 <= i < 14 => Keys()[i % 7])
  }

  /** Entry `i` of the refilled bag is catalog key `i % 7`: the key list
      followed by itself. */
  lemma RefilledTwice()
    ensures seq(14, i requires 0 <= i < 14 => Keys()[i % 7]) == Keys() + Keys()
  {
  }

  /** Each key occurs once among the catalog's keys. */
  lemma KeyOnce(k: Kind)
    ensures multiset(Keys())[k] == 1
  {
    var ks := Keys();
    assert multiset(ks) == multiset{I, O, T, L, J, S, Z};
  }

  /** The bag a draw picks from: refilled only when it is empty. */
  function BeforeDraw(bag: seq<Kind>): (b: seq<Kind>)
    ensures |b| > 0
    ensures |bag| > 0 ==> b == bag
    ensures |bag| == 0 ==> b == Refilled()
  {
    if |bag| == 0 then Refilled() else bag
  }

  /** The entry a draw returns and the bag it leaves. */
  datatype Drawn = Drawn(kind: Kind, rest: seq<Kind>)

  /** One draw of `getRandomTetromino` at index `i`, `splice(i, 1)`: the bag
      drawn from is exactly the returned entry plus what is left. */
  function Draw(bag: seq<Kind>, i: nat): (d: Drawn)
    requires i < |BeforeDraw(bag)|
    ensures d.kind == BeforeDraw(bag)[i]
    ensures |d.rest| == |BeforeDraw(bag)| - 1
    ensures multiset(BeforeDraw(bag)) == multiset(d.rest) + multiset{d.kind}
  {
    var b := BeforeDraw(bag);
    assert b == b[..i] + [b[i]] + b[i + 1..];
    Drawn(b[i], b[..i] + b[i + 1..])
  }

  /** Every pick in `picks` is a valid index for the draw it is used in. */
  predicate ValidPicks(bag: seq<Kind>, picks: seq<nat>)
    decreases |picks|
  {
    picks == [] ||
    (picks[0] < |BeforeDraw(bag)| && ValidPicks(Draw(bag, picks[0]).rest, picks[1..]))
  }

  /** The entries returned by drawing with `picks`, one after another. */
  function DrawAll(bag: seq<Kind>, picks: seq<nat>): (drawn: seq<Kind>)
    requires ValidPicks(bag, picks)
    ensures |drawn| == |picks|
    decreases |picks|
  {
    if picks == [] then []
    else
      var d := Draw(bag, picks[0]);
      [d.kind] + DrawAll(d.rest, picks[1..])
  }

  /** Picks that shrink with the bag: the `j`-th of them is below `n - j`. */
  predicate Shrinking(picks: seq<nat>, n: nat) {
    forall j :: 0 <= j < |picks| ==> picks[j] < n - j
  }

  /** Drawing a non-empty bag dry returns exactly its contents, with no
      refill on the way. */
  lemma {:induction false} DrainBag(bag: seq<Kind>, picks: seq<nat>)
    requires |bag| > 0 && |picks| == |bag| && Shrinking(picks, |bag|)
    ensures ValidPicks(bag, picks)
    ensures multiset(DrawAll(bag, picks)) == multiset(bag)
    decreases |bag|
  {
    var d := Draw(bag, picks[0]);
    if |bag| == 1 {
      assert picks[1..] == [];
      assert ValidPicks(d.rest, picks[1..]);
    } else {
      assert Shrinking(picks[1..], |d.rest|) by {
        forall j | 0 <= j < |picks[1..]| ensures picks[1..][j] < |d.rest| - j {
          assert picks[1..][j] == picks[j + 1];
        }
      }
      DrainBag(d.rest, picks[1..]);
    }
  }

  /** Drawing from an empty bag is drawing from a freshly refilled one. */
  lemma EmptyDrawsAsFull(picks: seq<nat>)
    requires ValidPicks(Refilled(), picks)
    ensures ValidPicks([], picks) && DrawAll([], picks) == DrawAll(Refilled(), picks)
  {
    var full := Refilled();
    assert BeforeDraw([]) == full == BeforeDraw(full);
    if picks != [] {
      assert Draw([], picks[0]) == Draw(full, picks[0]);
    }
  }

  /** Fourteen draws starting from an empty bag return every kind exactly
      twice, whatever indices are picked. */
  lemma FullBagDraws(picks: seq<nat>)
    requires |picks| == 14 && Shrinking(picks, 14)
    ensures ValidPicks([], picks)
    ensures forall k :: multiset(DrawAll([], picks))[k] == 2
  {
    DrainBag(Refilled(), picks);
    EmptyDrawsAsFull(picks);
  }
}
