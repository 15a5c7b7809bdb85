/** Repeating a step, whatever it works on. */
module Iteration {

  function Iterate<T>(f: T -> T, c: T, k: nat): T
    decreases k
  {
    if k == 0 then c else Iterate(f, f(c), k - 1)
  }

  /** The state after feeding the items one by one. */
  function Feed<T, B>(f: (T, B) -> T, c: T, items: seq<B>): T
    decreases |items|
  {
    if items == [] then c else Feed(f, f(c, items[0]), items[1..])
  }

  ghost predicate Commutes<T(!new)>(f: T -> T, g: (T, T) -> T) {
    forall a, b :: f(g(a, b)) == g(f(a), f(b))
  }

  ghost predicate Injective<T(!new)>(f: T -> T) {
    forall a, b :: f(a) == f(b) ==> a == b
  }

  lemma {:induction false} IterateCommutes<T(!new)>(f: T -> T, g: (T, T) -> T, a: T, b: T, k: nat)
    requires Commutes(f, g)
    ensures Iterate(f, g(a, b), k) == g(Iterate(f, a, k), Iterate(f, b, k))
    decreases k
  {
    if k > 0 {
      IterateCommutes(f, g, f(a), f(b), k - 1);
    }
  }

  lemma {:induction false} IterateAdd<T>(f: T -> T, c: T, k: nat, m: nat)
    ensures Iterate(f, c, k + m) == Iterate(f, Iterate(f, c, k), m)
    decreases k
  {
    if k > 0 {
      IterateAdd(f, f(c), k - 1, m);
    }
  }

  lemma {:induction false} IterateInjective<T(!new)>(f: T -> T, a: T, b: T, k: nat)
    requires Injective(f) && Iterate(f, a, k) == Iterate(f, b, k)
    ensures a == b
    decreases k
  {
    if k > 0 {
      IterateInjective(f, f(a), f(b), k - 1);
    }
  }

  lemma {:induction false} FeedAppend<T, B>(f: (T, B) -> T, c: T, a: seq<B>, b: seq<B>)
    ensures Feed(f, c, a + b) == Feed(f, Feed(f, c, a), b)
    decreases |a|
  {
    if a == [] {
      assert a + b == b;
    } else {
      assert (a + b)[1..] == a[1..] + b;
      FeedAppend(f, f(c, a[0]), a[1..], b);
    }
  }

  /** The same items never bring two different states together when no single item does. */
  lemma {:induction false} FeedInjective<T(!new), B(!new)>(f: (T, B) -> T, c: T, d: T, items: seq<B>)
    requires forall a, b, x :: f(a, x) == f(b, x) ==> a == b
    requires Feed(f, c, items) == Feed(f, d, items)
    ensures c == d
    decreases |items|
  {
    if items != [] {
      FeedInjective(f, f(c, items[0]), f(d, items[0]), items[1..]);
    }
  }

  /* ---------- Registers that take in items from below ---------- */

  /** A register type: its step, its addition, moving a word up by one item, and the word of one item. */
  datatype Machine<!T, !B> = Machine(step: T -> T, add: (T, T) -> T, up: T -> T, wide: B -> T, zero: T)

  ghost predicate Lawful<T(!new), B>(m: Machine<T, B>) {
    && Commutes(m.step, m.add)
    && (forall a, b, c :: m.add(a, m.add(b, c)) == m.add(m.add(a, b), c))
    && (forall a :: m.add(a, m.zero) == a)
  }

  /** The register after one more item: added at the bottom, then `width` steps. */
  function Absorbed<T, B>(m: Machine<T, B>, width: nat, c: T, b: B): T {
    Iterate(m.step, m.add(c, m.wide(b)), width)
  }

  /** The items as one word, the first at the bottom. */
  function Packed<T, B>(m: Machine<T, B>, items: seq<B>): T
    decreases |items|
  {
    if items == [] then m.zero else m.add(m.wide(items[0]), m.up(Packed(m, items[1..])))
  }

  /** Stepping `width` times brings a word down again. */
  ghost predicate ComesDown<T, B>(m: Machine<T, B>, width: nat, items: seq<B>) {
    Iterate(m.step, m.up(Packed(m, items)), width) == Packed(m, items)
  }

  lemma AbsorbFirst<T(!new), B>(m: Machine<T, B>, width: nat, c: T, b: B, items: seq<B>, k: nat)
    requires Lawful(m) && ComesDown(m, width, items)
    ensures Iterate(m.step, m.add(c, m.add(m.wide(b), m.up(Packed(m, items)))), width + k)
      == Iterate(m.step, m.add(Absorbed(m, width, c, b), Packed(m, items)), k)
  {
    hide Iterate;
    var y := Packed(m, items);
    var c1 := m.add(c, m.wide(b));
    assert m.add(c, m.add(m.wide(b), m.up(y))) == m.add(c1, m.up(y));
    IterateAdd(m.step, m.add(c1, m.up(y)), width, k);
    IterateCommutes(m.step, m.add, c1, m.up(y), width);
  }

  /** Absorbing items one by one is stepping over their word. */
  lemma {:induction false} AbsorbWord<T(!new), B(!new)>(
      m: Machine<T, B>, absorb: (T, B) -> T, width: nat, c: T, items: seq<B>)
    requires Lawful(m) && forall c, b :: absorb(c, b) == Absorbed(m, width, c, b)
    requires forall k :: 1 <= k <= |items| ==> ComesDown(m, width, items[k..])
    ensures Feed(absorb, c, items) == Iterate(m.step, m.add(c, Packed(m, items)), width * |items|)
    decreases |items|
  {
    hide Absorbed, ComesDown, Lawful, Iterate;
    if items == [] {
      IterateNone(m.step, m.add(c, m.zero));
      assert m.add(c, m.zero) == c by { ZeroAdds(m, c); }
      assert width * |items| == 0;
    } else {
      var rest := items[1..];
      assert forall k :: 1 <= k <= |rest| ==> rest[k..] == items[k + 1..];
      AbsorbWord(m, absorb, width, absorb(c, items[0]), rest);
      AbsorbFirst(m, width, c, items[0], rest, width * |rest|);
      assert width * |items| == width + width * |rest|;
    }
  }

  lemma IterateNone<T>(f: T -> T, c: T)
    ensures Iterate(f, c, 0) == c
  {
  }

  lemma ZeroAdds<T(!new), B>(m: Machine<T, B>, c: T)
    requires Lawful(m)
    ensures m.add(c, m.zero) == c
  {
  }
}
