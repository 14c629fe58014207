/** Iteration of a function, and what it inherits from one application. */
module Iteration {

  function Iterate<T>(f: T -> T, x: T, n: nat): T {
    if n == 0 then x else f(Iterate(f, x, n - 1))
  }

  lemma {:induction false} Homomorphic<T(!new)>(f: T -> T, op: (T, T) -> T, x: T, y: T, n: nat)
    requires forall a, b :: f(op(a, b)) == op(f(a), f(b))
    ensures Iterate(f, op(x, y), n) == op(Iterate(f, x, n), Iterate(f, y, n))
  {
    if n > 0 {
      Homomorphic(f, op, x, y, n - 1);
    }
  }

  lemma {:induction false} Injective<T(!new)>(f: T -> T, x: T, y: T, n: nat)
    requires forall a, b :: f(a) == f(b) ==> a == b
    requires Iterate(f, x, n) == Iterate(f, y, n)
    ensures x == y
  {
    if n > 0 {
      Injective(f, x, y, n - 1);
    }
  }

  lemma {:induction false} Additive<T>(f: T -> T, x: T, m: nat, n: nat)
    ensures Iterate(f, Iterate(f, x, m), n) == Iterate(f, x, m + n)
  {
    if n > 0 {
      Additive(f, x, m, n - 1);
    }
  }

  lemma FourTimes<T>(f: T -> T, x0: T, x1: T, x2: T, x3: T, x4: T)
    requires f(x0) == x1 && f(x1) == x2 && f(x2) == x3 && f(x3) == x4
    ensures Iterate(f, x0, 4) == x4
  {
    assert Iterate(f, x0, 2) == x2;
  }

  /** Feeding a message, byte by byte, into a register of type `T`. */
  function Feed<T>(update: (T, bv8) -> T, r: T, message: seq<bv8>): T {
    if message == [] then r
    else update(Feed(update, r, message[..|message| - 1]), message[|message| - 1])
  }

  lemma FeedSnoc<T>(update: (T, bv8) -> T, r: T, front: seq<bv8>, c: bv8)
    ensures Feed(update, r, front + [c]) == update(Feed(update, r, front), c)
  {
    assert (front + [c])[..|front|] == front;
  }

  lemma {:induction false} FeedAppend<T>(update: (T, bv8) -> T, r: T, a: seq<bv8>, b: seq<bv8>)
    ensures Feed(update, r, a + b) == Feed(update, Feed(update, r, a), b)
  {
    if b == [] {
      assert a + b == a;
    } else {
      assert (a + b)[..|a + b| - 1] == a + b[..|b| - 1];
      FeedAppend(update, r, a, b[..|b| - 1]);
    }
  }

  lemma {:induction false} FeedInjective<T(!new)>(update: (T, bv8) -> T, x: T, y: T, message: seq<bv8>)
    requires forall a, b, c :: update(a, c) == update(b, c) ==> a == b
    requires Feed(update, x, message) == Feed(update, y, message)
    ensures x == y
  {
    if message != [] {
      FeedInjective(update, x, y, message[..|message| - 1]);
    }
  }

  lemma FeedFour<T>(update: (T, bv8) -> T, r: T, b0: bv8, b1: bv8, b2: bv8, b3: bv8)
    ensures Feed(update, r, [b0, b1, b2, b3]) == update(update(update(update(r, b0), b1), b2), b3)
  {
    FeedSnoc(update, r, [], b0);
    FeedSnoc(update, r, [b0], b1);
    FeedSnoc(update, r, [b0, b1], b2);
    FeedSnoc(update, r, [b0, b1, b2], b3);
    assert [] + [b0] == [b0] && [b0] + [b1] == [b0, b1];
    assert [b0, b1] + [b2] == [b0, b1, b2] && [b0, b1, b2] + [b3] == [b0, b1, b2, b3];
  }

  /** If feeding the low part of a word and then merging its rest is one application of `f` to the
      merged word, feeding all four parts is four applications. */
  lemma WordAtATime<T(!new)>(update: (T, bv8) -> T, f: T -> T, op: (T, T) -> T, low: T -> bv8, rest: T -> T,
                             r: T, w0: T, w1: T, w2: T, w3: T, zero: T)
    requires forall x, v :: op(update(x, low(v)), rest(v)) == f(op(x, v))
    requires forall x :: op(x, zero) == x
    requires w1 == rest(w0) && w2 == rest(w1) && w3 == rest(w2) && zero == rest(w3)
    ensures Feed(update, r, [low(w0), low(w1), low(w2), low(w3)]) == f(f(f(f(op(r, w0)))))
  {
    FeedFour(update, r, low(w0), low(w1), low(w2), low(w3));
    var r1 := update(r, low(w0));
    var r2 := update(r1, low(w1));
    var r3 := update(r2, low(w2));
    assert op(r1, w1) == f(op(r, w0));
    assert op(r2, w2) == f(op(r1, w1));
    assert op(r3, w3) == f(op(r2, w2));
    assert op(update(r3, low(w3)), zero) == f(op(r3, w3));
  }
}
