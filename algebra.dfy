/**
 * The algebra the rewrite engines keep the value of an expression in: an
 * addition and a multiplication, both associative and commutative, with
 * their units, negation and the reciprocal.  The laws are stated over an
 * arbitrary carrier and proved once for the real numbers.
 */
module Algebraic {

  /** The operations an expression is evaluated with: addition, negation,
    * multiplication and the reciprocal, with their units. */
  datatype Algebra<!V> = Algebra(zero: V, one: V, add: (V, V) -> V, neg: V -> V, mul: (V, V) -> V, inv: V -> V)

  /** The laws every regrouping relies on.  They hold for the real numbers
    * with the reciprocal of zero taken to be zero (`RealLaws`). */
  ghost predicate Laws<V(!new)>(A: Algebra<V>)
  {
    AdditionLaws(A) && MultiplicationLaws(A) && DistributionLaws(A) && ReciprocalLaws(A)
  }

  /** Addition is associative and commutative with unit zero, and negation
    * is an involution that distributes over it. */
  ghost predicate AdditionLaws<V(!new)>(A: Algebra<V>)
  {
    && (forall x, y, z {:trigger A.add(A.add(x, y), z), A.add(x, A.add(y, z))} :: A.add(A.add(x, y), z) == A.add(x, A.add(y, z)))
    && (forall x, y {:trigger A.add(x, y), A.add(y, x)} :: A.add(x, y) == A.add(y, x))
    && (forall x {:trigger A.add(A.zero, x)} :: A.add(A.zero, x) == x)
    && (forall x {:trigger A.neg(A.neg(x))} :: A.neg(A.neg(x)) == x)
    && (forall x, y {:trigger A.neg(A.add(x, y)), A.add(A.neg(x), A.neg(y))} :: A.neg(A.add(x, y)) == A.add(A.neg(x), A.neg(y)))
  }

  /** Multiplication is associative and commutative with unit one, and
    * absorbs zero. */
  ghost predicate MultiplicationLaws<V(!new)>(A: Algebra<V>)
  {
    && (forall x, y, z {:trigger A.mul(A.mul(x, y), z), A.mul(x, A.mul(y, z))} :: A.mul(A.mul(x, y), z) == A.mul(x, A.mul(y, z)))
    && (forall x, y {:trigger A.mul(x, y), A.mul(y, x)} :: A.mul(x, y) == A.mul(y, x))
    && (forall x {:trigger A.mul(A.one, x)} :: A.mul(A.one, x) == x)
    && (forall x {:trigger A.mul(x, A.zero)} :: A.mul(x, A.zero) == A.zero)
  }

  /** Multiplication distributes over addition and negation. */
  ghost predicate DistributionLaws<V(!new)>(A: Algebra<V>)
  {
    && (forall x, y, z {:trigger A.mul(x, A.add(y, z)), A.add(A.mul(x, y), A.mul(x, z))} :: A.mul(x, A.add(y, z)) == A.add(A.mul(x, y), A.mul(x, z)))
    && (forall x, y {:trigger A.mul(x, A.neg(y)), A.neg(A.mul(x, y))} :: A.mul(x, A.neg(y)) == A.neg(A.mul(x, y)))
  }

  /** The reciprocal is an involution that distributes over multiplication. */
  ghost predicate ReciprocalLaws<V(!new)>(A: Algebra<V>)
  {
    && (forall x {:trigger A.inv(A.inv(x))} :: A.inv(A.inv(x)) == x)
    && (forall x, y {:trigger A.inv(A.mul(x, y)), A.mul(A.inv(x), A.inv(y))} :: A.inv(A.mul(x, y)) == A.mul(A.inv(x), A.inv(y)))
  }

  // The laws one instance at a time; each quantified law only links terms
  // that are already present, so a proof names the terms it needs here.

  lemma AddAssoc<V(!new)>(A: Algebra<V>, x: V, y: V, z: V)
    requires Laws(A)
    ensures A.add(A.add(x, y), z) == A.add(x, A.add(y, z))
  {
  }

  lemma AddComm<V(!new)>(A: Algebra<V>, x: V, y: V)
    requires Laws(A)
    ensures A.add(x, y) == A.add(y, x)
  {
  }

  lemma MulAssoc<V(!new)>(A: Algebra<V>, x: V, y: V, z: V)
    requires Laws(A)
    ensures A.mul(A.mul(x, y), z) == A.mul(x, A.mul(y, z))
  {
  }

  lemma MulComm<V(!new)>(A: Algebra<V>, x: V, y: V)
    requires Laws(A)
    ensures A.mul(x, y) == A.mul(y, x)
  {
  }

  lemma Units<V(!new)>(A: Algebra<V>, x: V)
    requires Laws(A)
    ensures A.add(x, A.zero) == x && A.mul(x, A.one) == x
  {
    AddComm(A, x, A.zero);
    MulComm(A, x, A.one);
  }

  function Inv(x: real): real
  {
    if x == 0.0 then 0.0 else 1.0 / x
  }

  function RealAlgebra(): Algebra<real>
  {
    Algebra(0.0, 1.0, (x: real, y: real) => x + y, (x: real) => -x, (x: real, y: real) => x * y, Inv)
  }

  lemma InvOfProduct(a: real, b: real)
    ensures Inv(a * b) == Inv(a) * Inv(b)
  {
    if a != 0.0 && b != 0.0 {
      assert a * b != 0.0;
      assert (1.0 / a) * (1.0 / b) * (a * b) == 1.0;
    }
  }

  lemma Distributes(a: real, b: real, c: real)
    ensures a * (b + c) == a * b + a * c
  {
  }

  lemma MulAssociates(a: real, b: real, c: real)
    ensures a * b * c == a * (b * c)
  {
  }

  /** Real arithmetic, with the reciprocal of zero taken to be zero, obeys `Laws`. */
  lemma RealLaws()
    ensures Laws(RealAlgebra())
  {
    RealMultiplicationLaws();
    RealDistributionLaws();
    RealReciprocalLaws();
  }

  lemma RealMultiplicationLaws()
    ensures MultiplicationLaws(RealAlgebra())
  {
    var A := RealAlgebra();
    forall x: real, y: real, z: real
      ensures A.mul(A.mul(x, y), z) == A.mul(x, A.mul(y, z))
    {
      MulAssociates(x, y, z);
    }
    forall x: real, y: real
      ensures A.mul(x, y) == A.mul(y, x)
    {
      MulCommutes(x, y);
    }
  }

  lemma RealDistributionLaws()
    ensures DistributionLaws(RealAlgebra())
  {
    var A := RealAlgebra();
    forall x: real, y: real, z: real
      ensures A.mul(x, A.add(y, z)) == A.add(A.mul(x, y), A.mul(x, z))
    {
      Distributes(x, y, z);
    }
    forall x: real, y: real
      ensures A.mul(x, A.neg(y)) == A.neg(A.mul(x, y))
    {
      MulCommutes(x, y);
    }
  }

  lemma MulCommutes(x: real, y: real)
    ensures x * y == y * x && x * -y == -(x * y)
  {
  }

  lemma RealReciprocalLaws()
    ensures ReciprocalLaws(RealAlgebra())
  {
    var A := RealAlgebra();
    forall x: real, y: real
      ensures A.inv(A.mul(x, y)) == A.mul(A.inv(x), A.inv(y))
    {
      InvOfProduct(x, y);
    }
    forall x: real
      ensures A.inv(A.inv(x)) == x
    {
      InvOfInv(x);
    }
  }

  lemma InvOfInv(x: real)
    ensures Inv(Inv(x)) == x
  {
  }
}
