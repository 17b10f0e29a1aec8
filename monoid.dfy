/** The fp-ts monoids the serialized-parameter algebra is built from, and the
    fp-ts `intercalate` fold over an array. */
module Monoid {

  /** fp-ts `Monoid<A>`: a neutral element and a binary `concat`. */
  datatype Monoid<!A> = Monoid(empty: A, concat: (A, A) -> A)

  ghost predicate Associative<A(!new)>(m: Monoid<A>) {
    forall x, y, z :: m.concat(m.concat(x, y), z) == m.concat(x, m.concat(y, z))
  }

  ghost predicate HasIdentity<A(!new)>(m: Monoid<A>) {
    forall x :: m.concat(m.empty, x) == x && m.concat(x, m.empty) == x
  }

  /** The monoid laws every fp-ts `Monoid` instance is expected to obey. */
  ghost predicate Lawful<A(!new)>(m: Monoid<A>) {
    Associative(m) && HasIdentity(m)
  }

  /** fp-ts `monoidString`: concatenation, neutral element "". */
  function MonoidString(): Monoid<string> {
    Monoid("", (x: string, y: string) => x + y)
  }

  /** fp-ts `monoidAny`: disjunction, neutral element `false`. */
  function MonoidAny(): Monoid<bool> {
    Monoid(false, (x: bool, y: bool) => x || y)
  }

  /** fp-ts `getMonoid<A>()` for arrays: concatenation, neutral element []. */
  function ArrayMonoid<A>(): Monoid<seq<A>> {
    Monoid([], (x: seq<A>, y: seq<A>) => x + y)
  }

  /** Any monoid whose `concat` is sequence append and whose neutral element is
      [] obeys the laws; `monoidString` and the array monoid are two of them. */
  lemma AppendLawful<T(!new)>(m: Monoid<seq<T>>)
    requires m.empty == [] && forall x, y :: m.concat(x, y) == x + y
    ensures Lawful(m)
  {
    forall x: seq<T>, y: seq<T>, z: seq<T> ensures m.concat(m.concat(x, y), z) == m.concat(x, m.concat(y, z)) {
      assert (x + y) + z == x + (y + z);
    }
    forall x: seq<T> ensures m.concat(m.empty, x) == x && m.concat(x, m.empty) == x {
      assert [] + x == x && x + [] == x;
    }
  }

  lemma MonoidStringLawful()
    ensures Lawful(MonoidString())
  {
    AppendLawful(MonoidString());
  }

  lemma ArrayMonoidLawful<A(!new)>()
    ensures Lawful(ArrayMonoid<A>())
  {
    AppendLawful(ArrayMonoid<A>());
  }

  lemma MonoidAnyLawful()
    ensures Lawful(MonoidAny())
  {
  }

  /** The accumulator of fp-ts `intercalate`: `init` holds until the first element is seen. */
  datatype Acc<A> = Acc(init: bool, acc: A)

  /** One step of fp-ts `intercalate`: the first element is taken as it is, every
      later one is appended after the separator. */
  function IntercalateStep<A>(m: Monoid<A>, sep: A, st: Acc<A>, x: A): Acc<A> {
    if st.init then Acc(false, x) else Acc(false, m.concat(m.concat(st.acc, sep), x))
  }

  /** `array.reduce` of `IntercalateStep`: a left fold. */
  function Reduce<A>(m: Monoid<A>, sep: A, st: Acc<A>, xs: seq<A>): Acc<A>
    decreases |xs|
  {
    if |xs| == 0 then st else Reduce(m, sep, IntercalateStep(m, sep, st, xs[0]), xs[1..])
  }

  /** fp-ts `intercalate(M, array)(sep, xs)`. */
  function Intercalate<A>(m: Monoid<A>, sep: A, xs: seq<A>): A {
    Reduce(m, sep, Acc(true, m.empty), xs).acc
  }

  /** Reference definition: the elements joined by `sep`, nested to the right. */
  function JoinRight<A>(m: Monoid<A>, sep: A, xs: seq<A>): A
    requires |xs| > 0
    decreases |xs|
  {
    if |xs| == 1 then xs[0] else m.concat(xs[0], m.concat(sep, JoinRight(m, sep, xs[1..])))
  }

  /** Reference definition for sequences (and so strings): the parts joined by `sep`. */
  function Join<T>(parts: seq<seq<T>>, sep: seq<T>): seq<T>
    decreases |parts|
  {
    if |parts| == 0 then [] else if |parts| == 1 then parts[0] else parts[0] + sep + Join(parts[1..], sep)
  }

  /** A map that respects the neutral element and `concat`. */
  ghost predicate Homomorphism<A(!new), B>(m: Monoid<A>, n: Monoid<B>, h: A -> B) {
    && h(m.empty) == n.empty
    && forall x, y :: h(m.concat(x, y)) == n.concat(h(x), h(y))
  }

  function MapSeq<A, B>(h: A -> B, xs: seq<A>): (r: seq<B>)
    ensures |r| == |xs| && forall i :: 0 <= i < |xs| ==> r[i] == h(xs[i])
  {
    seq(|xs|, i requires 0 <= i < |xs| => h(xs[i]))
  }

  lemma IntercalateNil<A>(m: Monoid<A>, sep: A)
    ensures Intercalate(m, sep, []) == m.empty
  {
  }

  /** A single element is returned as it is, without touching `empty`: no law is needed. */
  lemma IntercalateSingleton<A>(m: Monoid<A>, sep: A, x: A)
    ensures Intercalate(m, sep, [x]) == x
  {
    var st := IntercalateStep(m, sep, Acc(true, m.empty), x);
    assert [x][1..] == [];
    assert Reduce(m, sep, st, []) == st;
  }

  lemma {:induction false} ReduceRight<A(!new)>(m: Monoid<A>, sep: A, a: A, xs: seq<A>)
    requires Associative(m)
    requires |xs| > 0
    ensures Reduce(m, sep, Acc(false, a), xs) == Acc(false, m.concat(a, m.concat(sep, JoinRight(m, sep, xs))))
    decreases |xs|
  {
    var a' := m.concat(m.concat(a, sep), xs[0]);
    if |xs| == 1 {
      assert xs[1..] == [];
    } else {
      ReduceRight(m, sep, a', xs[1..]);
      var rest := m.concat(sep, JoinRight(m, sep, xs[1..]));
      calc {
        m.concat(a', rest);
        m.concat(m.concat(a, sep), m.concat(xs[0], rest));
        m.concat(a, m.concat(sep, m.concat(xs[0], rest)));
      }
    }
  }

  /** The left fold of fp-ts `intercalate` agrees with the right-nested join
      whenever `concat` is associative. */
  lemma {:induction false} IntercalateIsJoinRight<A(!new)>(m: Monoid<A>, sep: A, xs: seq<A>)
    requires Associative(m)
    requires |xs| > 0
    ensures Intercalate(m, sep, xs) == JoinRight(m, sep, xs)
  {
    var st := IntercalateStep(m, sep, Acc(true, m.empty), xs[0]);
    assert Intercalate(m, sep, xs) == Reduce(m, sep, st, xs[1..]).acc;
    if |xs| > 1 {
      ReduceRight(m, sep, xs[0], xs[1..]);
    } else {
      assert xs[1..] == [];
    }
  }

  /** Two elements, as the fold computes them: `x` and the separator, then `y`.
      No monoid law is needed. */
  lemma IntercalatePairLeft<A>(m: Monoid<A>, sep: A, x: A, y: A)
    ensures Intercalate(m, sep, [x, y]) == m.concat(m.concat(x, sep), y)
  {
    var st := IntercalateStep(m, sep, Acc(true, m.empty), x);
    var st' := IntercalateStep(m, sep, st, y);
    assert [x, y][1..] == [y] && [y][1..] == [];
    assert Reduce(m, sep, st, [y]) == Reduce(m, sep, st', []);
  }

  /** Two elements: `x`, then the separator, then `y`. */
  lemma IntercalatePair<A(!new)>(m: Monoid<A>, sep: A, x: A, y: A)
    requires Associative(m)
    ensures Intercalate(m, sep, [x, y]) == m.concat(x, m.concat(sep, y))
  {
    IntercalateIsJoinRight(m, sep, [x, y]);
    assert [x, y][1..] == [y];
  }

  lemma {:induction false} ReduceMap<A(!new), B>(m: Monoid<A>, n: Monoid<B>, h: A -> B, sep: A, st: Acc<A>, xs: seq<A>)
    requires Homomorphism(m, n, h)
    ensures h(Reduce(m, sep, st, xs).acc) == Reduce(n, h(sep), Acc(st.init, h(st.acc)), MapSeq(h, xs)).acc
    ensures Reduce(m, sep, st, xs).init == (st.init && |xs| == 0)
    decreases |xs|
  {
    if |xs| > 0 {
      var st' := IntercalateStep(m, sep, st, xs[0]);
      assert MapSeq(h, xs)[1..] == MapSeq(h, xs[1..]);
      ReduceMap(m, n, h, sep, st', xs[1..]);
    }
  }

  /** A homomorphism commutes with `intercalate`: a field of a struct monoid is
      intercalated on its own, with the separator's field between the elements'. */
  lemma IntercalateMap<A(!new), B>(m: Monoid<A>, n: Monoid<B>, h: A -> B, sep: A, xs: seq<A>)
    requires Homomorphism(m, n, h)
    ensures h(Intercalate(m, sep, xs)) == Intercalate(n, h(sep), MapSeq(h, xs))
  {
    ReduceMap(m, n, h, sep, Acc(true, m.empty), xs);
  }

  lemma {:induction false} JoinRightIsJoin<T>(m: Monoid<seq<T>>, sep: seq<T>, parts: seq<seq<T>>)
    requires forall x, y :: m.concat(x, y) == x + y
    requires |parts| > 0
    ensures JoinRight(m, sep, parts) == Join(parts, sep)
    decreases |parts|
  {
    if |parts| > 1 {
      JoinRightIsJoin(m, sep, parts[1..]);
      var rest := Join(parts[1..], sep);
      calc {
        JoinRight(m, sep, parts);
        m.concat(parts[0], m.concat(sep, JoinRight(m, sep, parts[1..])));
        parts[0] + (sep + rest);
        { assert parts[0] + (sep + rest) == parts[0] + sep + rest; }
        parts[0] + sep + rest;
        Join(parts, sep);
      }
    }
  }

  /** Intercalating with a concatenation monoid joins the parts with the separator. */
  lemma IntercalateAppendIsJoin<T(!new)>(m: Monoid<seq<T>>, sep: seq<T>, parts: seq<seq<T>>)
    requires m.empty == [] && forall x, y :: m.concat(x, y) == x + y
    ensures Intercalate(m, sep, parts) == Join(parts, sep)
  {
    if |parts| > 0 {
      AppendLawful(m);
      IntercalateIsJoinRight(m, sep, parts);
      JoinRightIsJoin(m, sep, parts);
    }
  }

  lemma {:induction false} ReduceAny(sep: bool, st: Acc<bool>, bs: seq<bool>)
    ensures Reduce(MonoidAny(), sep, st, bs).acc ==
            if |bs| == 0 then st.acc
            else if st.init then (exists i :: 0 <= i < |bs| && bs[i]) || (|bs| > 1 && sep)
            else st.acc || sep || exists i :: 0 <= i < |bs| && bs[i]
    decreases |bs|
  {
    if |bs| > 0 {
      ReduceAny(sep, IntercalateStep(MonoidAny(), sep, st, bs[0]), bs[1..]);
      if exists i :: 0 <= i < |bs| && bs[i] {
        var i :| 0 <= i < |bs| && bs[i];
        if i > 0 {
          assert bs[1..][i - 1];
        }
      }
    }
  }

  /** Intercalating flags with `monoidAny` is true exactly when some element is,
      or when the separator is and sits between at least two elements. */
  lemma IntercalateAny(sep: bool, bs: seq<bool>)
    ensures Intercalate(MonoidAny(), sep, bs) <==> (exists i :: 0 <= i < |bs| && bs[i]) || (|bs| > 1 && sep)
  {
    ReduceAny(sep, Acc(true, false), bs);
  }
}
