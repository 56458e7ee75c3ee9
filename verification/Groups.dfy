/** The curve group of the ElGamal protocol, taken abstractly: an abelian group with a base point of known order. */
module Groups {
  import opened ModArith

  datatype Group<!G> = Group(add: (G, G) -> G, neg: G -> G, zero: G, base: G, order: nat)

  /** k-fold sum of P. */
  function Mul<G>(g: Group<G>, k: nat, P: G): G
  {
    if k == 0 then g.zero else g.add(P, Mul(g, k - 1, P))
  }

  ghost predicate Abelian<G(!new)>(g: Group<G>)
  {
    && (forall P, Q :: g.add(P, Q) == g.add(Q, P))
    && (forall P, Q, R :: g.add(g.add(P, Q), R) == g.add(P, g.add(Q, R)))
    && (forall P :: g.add(P, g.zero) == P)
    && (forall P :: g.add(P, g.neg(P)) == g.zero)
  }

  /** `base` generates a subgroup of `order` elements. */
  ghost predicate BaseHasOrder<G>(g: Group<G>)
  {
    g.order >= 1 && forall k: nat :: Mul(g, k, g.base) == g.zero <==> k % g.order == 0
  }

  ghost predicate IsCurve<G(!new)>(g: Group<G>)
  {
    Abelian(g) && BaseHasOrder(g)
  }

  // The axioms one instance at a time; the proofs below hide the quantified form.

  lemma Comm<G(!new)>(g: Group<G>, P: G, Q: G)
    requires Abelian(g)
    ensures g.add(P, Q) == g.add(Q, P)
  {
  }

  lemma Assoc<G(!new)>(g: Group<G>, P: G, Q: G, R: G)
    requires Abelian(g)
    ensures g.add(g.add(P, Q), R) == g.add(P, g.add(Q, R))
  {
  }

  lemma Zero<G(!new)>(g: Group<G>, P: G)
    requires Abelian(g)
    ensures g.add(P, g.zero) == P && g.add(g.zero, P) == P
    ensures g.add(P, g.neg(P)) == g.zero
  {
    Comm(g, P, g.zero);
  }

  lemma Swap<G(!new)>(g: Group<G>, P: G, Q: G, R: G, S: G)
    requires Abelian(g)
    ensures g.add(g.add(P, Q), g.add(R, S)) == g.add(g.add(P, R), g.add(Q, S))
  {
    hide *;
    Assoc(g, P, Q, g.add(R, S));
    Assoc(g, Q, R, S);
    Comm(g, Q, R);
    Assoc(g, R, Q, S);
    Assoc(g, P, R, g.add(Q, S));
  }

  lemma CancelAdd<G(!new)>(g: Group<G>, P: G, Q: G, R: G)
    requires Abelian(g) && g.add(P, R) == g.add(Q, R)
    ensures P == Q
  {
    hide *;
    Assoc(g, P, R, g.neg(R));
    Assoc(g, Q, R, g.neg(R));
    Zero(g, R);
    Zero(g, P);
    Zero(g, Q);
  }

  lemma MulStep<G(!new)>(g: Group<G>, k: nat, P: G)
    ensures Mul(g, k + 1, P) == g.add(P, Mul(g, k, P))
    ensures Mul(g, 0, P) == g.zero
  {
  }

  lemma {:induction false} MulAdd<G(!new)>(g: Group<G>, k: nat, l: nat, P: G)
    requires Abelian(g)
    ensures Mul(g, k + l, P) == g.add(Mul(g, k, P), Mul(g, l, P))
  {
    hide *;
    if k == 0 {
      MulStep(g, 0, P);
      Zero(g, Mul(g, l, P));
    } else {
      MulAdd(g, k - 1, l, P);
      MulStep(g, k - 1 + l, P);
      MulStep(g, k - 1, P);
      Assoc(g, P, Mul(g, k - 1, P), Mul(g, l, P));
    }
  }

  lemma {:induction false} MulOfSum<G(!new)>(g: Group<G>, k: nat, P: G, Q: G)
    requires Abelian(g)
    ensures Mul(g, k, g.add(P, Q)) == g.add(Mul(g, k, P), Mul(g, k, Q))
  {
    hide *;
    if k == 0 {
      MulStep(g, 0, P);
      MulStep(g, 0, Q);
      MulStep(g, 0, g.add(P, Q));
      Zero(g, g.zero);
    } else {
      MulOfSum(g, k - 1, P, Q);
      MulStep(g, k - 1, P);
      MulStep(g, k - 1, Q);
      MulStep(g, k - 1, g.add(P, Q));
      Swap(g, P, Q, Mul(g, k - 1, P), Mul(g, k - 1, Q));
    }
  }

  lemma {:induction false} MulOfZero<G(!new)>(g: Group<G>, k: nat)
    requires Abelian(g)
    ensures Mul(g, k, g.zero) == g.zero
  {
    if k != 0 {
      MulOfZero(g, k - 1);
      Zero(g, g.zero);
    }
  }

  lemma {:induction false} MulMul<G(!new)>(g: Group<G>, k: nat, l: nat, P: G)
    requires Abelian(g)
    ensures 0 <= k * l
    ensures Mul(g, k, Mul(g, l, P)) == Mul(g, k * l, P)
  {
    hide *;
    if k == 0 {
      MulStep(g, 0, P);
      MulStep(g, 0, Mul(g, l, P));
    } else {
      MulMul(g, k - 1, l, P);
      assert k * l == l + (k - 1) * l;
      MulStep(g, k - 1, Mul(g, l, P));
      MulAdd(g, l, (k - 1) * l, P);
    }
  }

  lemma MulSwap<G(!new)>(g: Group<G>, k: nat, l: nat, P: G)
    requires Abelian(g)
    ensures Mul(g, k, Mul(g, l, P)) == Mul(g, l, Mul(g, k, P))
  {
    hide *;
    MulMul(g, k, l, P);
    MulMul(g, l, k, P);
    assert k * l == l * k;
  }

  /** A scalar may be reduced modulo the order of the point. */
  lemma {:induction false} MulReduced<G(!new)>(g: Group<G>, k: nat, n: nat, P: G)
    requires Abelian(g) && n >= 1 && Mul(g, n, P) == g.zero
    ensures Mul(g, k % n, P) == Mul(g, k, P)
  {
    hide *;
    var q, r := k / n, k % n;
    assert k == q * n + r;
    MulMul(g, q, n, P);
    MulOfZero(g, q);
    MulAdd(g, q * n, r, P);
    Zero(g, Mul(g, r, P));
  }

  lemma OrderOfBase<G(!new)>(g: Group<G>)
    requires IsCurve(g)
    ensures Abelian(g) && g.order >= 1 && Mul(g, g.order, g.base) == g.zero
  {
    assert g.order % g.order == 0;
  }

  /** Every multiple of the base is annihilated by the order. */
  lemma BaseMultiple<G(!new)>(g: Group<G>, k: nat)
    requires IsCurve(g)
    ensures Mul(g, g.order, Mul(g, k, g.base)) == g.zero
  {
    hide *;
    OrderOfBase(g);
    MulSwap(g, g.order, k, g.base);
    MulOfZero(g, k);
  }

  lemma {:induction false} LogDifference<G(!new)>(g: Group<G>, k: nat, l: nat)
    requires IsCurve(g) && k <= l && Mul(g, k, g.base) == Mul(g, l, g.base)
    ensures (l - k) % g.order == 0
  {
    hide Mul, Abelian;
    var d := l - k;
    MulAdd(g, d, k, g.base);
    Zero(g, Mul(g, k, g.base));
    CancelAdd(g, Mul(g, d, g.base), g.zero, Mul(g, k, g.base));
  }

  /** Below the order the base has unique discrete logarithms. */
  lemma SmallLogs<G(!new)>(g: Group<G>, k: nat, l: nat)
    requires IsCurve(g) && k < g.order && l < g.order && Mul(g, k, g.base) == Mul(g, l, g.base)
    ensures k == l
  {
    hide *;
    if k <= l {
      LogDifference(g, k, l);
      SmallMod(l - k, g.order);
    } else {
      LogDifference(g, l, k);
      SmallMod(k - l, g.order);
    }
  }

  // ---- A concrete instance: the integers modulo 2^16 + 1 ---------------------------------------

  newtype Residue = r: int | 0 <= r < 65537

  function Add(a: Residue, b: Residue): Residue
  {
    var s := a as int + b as int;
    (if s >= 65537 then s - 65537 else s) as Residue
  }

  function Negate(a: Residue): Residue
  {
    if a == 0 then 0 else (65537 - a as int) as Residue
  }

  function Cyclic(): Group<Residue>
  {
    Group(Add, Negate, 0, 1, 65537)
  }

  lemma {:induction false} CyclicMul(k: nat)
    ensures Mul(Cyclic(), k, 1) as int == k % 65537
  {
    if k > 0 {
      CyclicMul(k - 1);
      assert Mul(Cyclic(), k, 1) == Add(1, Mul(Cyclic(), k - 1, 1));
    }
  }

  lemma CyclicIsAbelian()
    ensures Abelian(Cyclic())
  {
    assert forall P, Q :: Cyclic().add(P, Q) == Add(P, Q);
  }

  /** The axioms have a model. */
  lemma CyclicIsCurve()
    ensures IsCurve(Cyclic())
  {
    hide Abelian;
    CyclicIsAbelian();
    forall k: nat
      ensures Mul(Cyclic(), k, 1) == 0 <==> k % 65537 == 0
    {
      CyclicMul(k);
    }
  }
}
