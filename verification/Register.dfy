/** Laws of a shift register, stated for an arbitrary state type so that the proofs
    below never look inside the register. */
module Register {

  function Iterate<T>(f: T -> T, c: T, n: nat): T
    decreases n
  {
    if n == 0 then c else Iterate(f, f(c), n - 1)
  }

  lemma IterateOnce<T>(f: T -> T, c: T, n: nat)
    requires n > 0
    ensures Iterate(f, c, n) == Iterate(f, f(c), n - 1)
  {
  }

  function Fold<T, B>(g: (T, B) -> T, c: T, s: seq<B>): T
    decreases |s|
  {
    if s == [] then c else Fold(g, g(c, s[0]), s[1..])
  }

  function FoldRight<T, B>(push: (B, T) -> T, z: T, s: seq<B>): T {
    if s == [] then z else push(s[0], FoldRight(push, z, s[1..]))
  }

  function Power<T>(f: T -> T, c: T, n: nat): T {
    if n == 0 then c else f(Power(f, c, n - 1))
  }

  ghost predicate Linear<T(!new)>(f: T -> T, op: (T, T) -> T) {
    forall a, b :: f(op(a, b)) == op(f(a), f(b))
  }

  ghost predicate Associative<T(!new)>(op: (T, T) -> T) {
    forall a, b, c :: op(op(a, b), c) == op(a, op(b, c))
  }

  ghost predicate Injective<T(!new)>(f: T -> T) {
    forall a, b :: f(a) == f(b) ==> a == b
  }

  ghost predicate InjectiveInState<T(!new), B(!new)>(g: (T, B) -> T) {
    forall a, b, x :: g(a, x) == g(b, x) ==> a == b
  }

  lemma {:induction false} IterateLinear<T(!new)>(f: T -> T, op: (T, T) -> T, a: T, b: T, n: nat)
    requires Linear(f, op)
    ensures Iterate(f, op(a, b), n) == op(Iterate(f, a, n), Iterate(f, b, n))
    decreases n
  {
    if n > 0 {
      IterateLinear(f, op, f(a), f(b), n - 1);
    }
  }

  lemma {:induction false} IterateInjective<T(!new)>(f: T -> T, a: T, b: T, n: nat)
    requires Injective(f) && Iterate(f, a, n) == Iterate(f, b, n)
    ensures a == b
    decreases n
  {
    if n > 0 {
      IterateInjective(f, f(a), f(b), n - 1);
    }
  }

  lemma {:induction false} FoldInjective<T(!new), B(!new)>(g: (T, B) -> T, a: T, b: T, s: seq<B>)
    requires InjectiveInState(g) && Fold(g, a, s) == Fold(g, b, s)
    ensures a == b
    decreases |s|
  {
    if s != [] {
      FoldInjective(g, g(a, s[0]), g(b, s[0]), s[1..]);
    }
  }

  lemma FoldOnce<T, B>(g: (T, B) -> T, c: T, s: seq<B>)
    requires s != []
    ensures Fold(g, c, s) == Fold(g, g(c, s[0]), s[1..])
  {
  }

  lemma {:induction false} FoldConcat<T, B>(g: (T, B) -> T, c: T, s: seq<B>, t: seq<B>)
    ensures Fold(g, c, s + t) == Fold(g, Fold(g, c, s), t)
    decreases |s|
  {
    if s == [] {
      assert s + t == t;
    } else {
      assert (s + t)[1..] == s[1..] + t;
      FoldConcat(g, g(c, s[0]), s[1..], t);
    }
  }

  /** A bound that holds of the empty word and survives every push holds of every word. */
  lemma {:induction false} FoldRightBounded<T(!new), B(!new)>(push: (B, T) -> T, z: T, s: seq<B>,
                                                          within: (T, T) -> bool, grow: T -> T, m: T)
    requires within(z, m)
    requires forall b, w, k :: within(w, k) ==> within(push(b, w), grow(k))
    ensures within(FoldRight(push, z, s), Power(grow, m, |s|))
  {
    if s != [] {
      FoldRightBounded(push, z, s[1..], within, grow, m);
    }
  }

  lemma {:induction false} PowerMonotone<T(!new)>(within: (T, T) -> bool, grow: T -> T, m: T, n: nat, k: nat)
    requires forall x :: within(m, x)
    requires forall x, y :: within(x, y) ==> within(grow(x), grow(y))
    requires n <= k
    ensures within(Power(grow, m, n), Power(grow, m, k))
  {
    if n > 0 {
      PowerMonotone(within, grow, m, n - 1, k - 1);
    }
  }

  /** A word pushed in at once moves past one step, leaving its first bit behind. */
  lemma Absorb<T(!new)>(f: T -> T, op: (T, T) -> T, c: T, bit: T, pushed: T, rest: T)
    requires Linear(f, op) && Associative(op)
    requires f(pushed) == op(f(bit), rest)
    ensures f(op(c, pushed)) == op(f(op(c, bit)), rest)
  {
  }

  /** A word goes in bit by bit exactly as it goes in at once, as long as pushing never
      loses a bit (the condition on each suffix of s). */
  lemma {:induction false} FoldIsIterate<T(!new), B(!new)>(
      feed: (T, B) -> T, f: T -> T, op: (T, T) -> T, bit: B -> T, push: (B, T) -> T, z: T, c: T, s: seq<B>)
    requires Linear(f, op) && Associative(op) && forall a :: op(a, z) == a
    requires forall a, b :: feed(a, b) == f(op(a, bit(b)))
    requires forall i :: 0 <= i < |s| ==>
               f(push(s[i], FoldRight(push, z, s[i+1..]))) == op(f(bit(s[i])), FoldRight(push, z, s[i+1..]))
    ensures Fold(feed, c, s) == Iterate(f, op(c, FoldRight(push, z, s)), |s|)
    decreases |s|
  {
    if s != [] {
      var t := s[1..];
      forall i | 0 <= i < |t|
        ensures f(push(t[i], FoldRight(push, z, t[i+1..]))) == op(f(bit(t[i])), FoldRight(push, z, t[i+1..]))
      {
        assert t[i] == s[i+1] && t[i+1..] == s[i+1+1..];
      }
      var rest := FoldRight(push, z, t);
      Absorb(f, op, c, bit(s[0]), push(s[0], rest), rest);
      FoldIsIterate(feed, f, op, bit, push, z, feed(c, s[0]), t);
    }
  }

  /** Three runs fed with inputs whose combination is the fourth run's input. */
  ghost predicate Affine<T(!new), B(!new)>(g: (T, B) -> T, op: (T, T) -> T, mix: (B, B) -> B) {
    forall a, b, x, y :: g(op(a, b), mix(x, y)) == op(g(a, x), g(b, y))
  }

  function Zip<B>(mix: (B, B) -> B, s: seq<B>, t: seq<B>): (r: seq<B>)
    requires |s| == |t|
    ensures |r| == |s|
  {
    if s == [] then [] else [mix(s[0], t[0])] + Zip(mix, s[1..], t[1..])
  }

  lemma {:induction false} ZipAt<B>(mix: (B, B) -> B, s: seq<B>, t: seq<B>)
    requires |s| == |t|
    ensures forall i :: 0 <= i < |s| ==> Zip(mix, s, t)[i] == mix(s[i], t[i])
  {
    if s != [] {
      ZipAt(mix, s[1..], t[1..]);
    }
  }

  lemma {:induction false} FoldAffine<T(!new), B(!new)>(g: (T, B) -> T, op: (T, T) -> T, mix: (B, B) -> B,
                                                     a: T, b: T, s: seq<B>, t: seq<B>)
    requires |s| == |t| && Affine(g, op, mix)
    ensures Fold(g, op(a, b), Zip(mix, s, t)) == op(Fold(g, a, s), Fold(g, b, t))
    decreases |s|
  {
    if s != [] {
      FoldAffine(g, op, mix, g(a, s[0]), g(b, t[0]), s[1..], t[1..]);
      var z := Zip(mix, s, t);
      assert z[0] == mix(s[0], t[0]) && z[1..] == Zip(mix, s[1..], t[1..]);
    }
  }

  /** Two runs from the same state differ as a run over the difference does. */
  lemma FoldDifference<T(!new), B(!new)>(g: (T, B) -> T, op: (T, T) -> T, mix: (B, B) -> B, c: T, zero: T,
                                       s: seq<B>, t: seq<B>)
    requires |s| == |t| && Affine(g, op, mix) && op(c, c) == zero
    ensures op(Fold(g, c, s), Fold(g, c, t)) == Fold(g, zero, Zip(mix, s, t))
  {
    FoldAffine(g, op, mix, c, c, s, t);
  }

  lemma FoldFour<T, B>(g: (T, B) -> T, r: T, a: B, b: B, c: B, d: B)
    ensures Fold(g, r, [a, b, c, d]) == g(g(g(g(r, a), b), c), d)
  {
    FoldOnce(g, r, [a, b, c, d]);
    assert [a, b, c, d][1..] == [b, c, d];
    FoldOnce(g, g(r, a), [b, c, d]);
    assert [b, c, d][1..] == [c, d];
    FoldOnce(g, g(g(r, a), b), [c, d]);
    assert [c, d][1..] == [d];
    FoldOnce(g, g(g(g(r, a), b), c), [d]);
  }

  /** One round takes the first part of a word in and leaves the rest. */
  ghost predicate TakesIn<T(!new), B>(g: (T, B) -> T, e: T -> T, op: (T, T) -> T, word: T, part: B, rest: T) {
    forall r :: e(op(r, word)) == op(g(r, part), rest)
  }

  /** Four parts go in one by one exactly as the word goes in at once. */
  lemma FoldWord<T(!new), B>(g: (T, B) -> T, e: T -> T, op: (T, T) -> T, r: T, zero: T, w: T, w1: T, w2: T, w3: T,
                            a: B, b: B, c: B, d: B)
    requires TakesIn(g, e, op, w, a, w1) && TakesIn(g, e, op, w1, b, w2)
    requires TakesIn(g, e, op, w2, c, w3) && TakesIn(g, e, op, w3, d, zero) && forall x :: op(x, zero) == x
    ensures Fold(g, r, [a, b, c, d]) == e(e(e(e(op(r, w)))))
  {
    FoldFour(g, r, a, b, c, d);
  }
}
