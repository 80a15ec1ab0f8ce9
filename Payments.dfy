/**
 A payment between two users, used as the key of the payment graph's edge map.
 The graph is undirected: two payments are the same edge when they name the
 same two users, in either order, and their hash codes agree accordingly.
 */
module Payments {

  /** The two users of a payment, in the order the payment record gave them. */
  datatype Payment = Payment(user1: string, user2: string)

  /** The same pair of users in the other order. */
  function Flip(p: Payment): Payment
  {
    Payment(p.user2, p.user1)
  }

  /** The edge equality of `Payment.equals`: same users, in either order. */
  predicate Equals(p: Payment, q: Payment)
  {
    || (p.user1 == q.user1 && p.user2 == q.user2)
    || (p.user1 == q.user2 && p.user2 == q.user1)
  }

  /** The unordered pair of users a payment connects. */
  function Users(p: Payment): set<string>
  {
    {p.user1, p.user2}
  }

  /** Two payments are the same edge exactly when they connect the same set of users. */
  lemma EqualsIffSameUsers(p: Payment, q: Payment)
    ensures Equals(p, q) <==> Users(p) == Users(q)
  {
    if Users(p) == Users(q) {
      assert p.user1 in Users(q) && p.user2 in Users(q);
      assert q.user1 in Users(p) && q.user2 in Users(p);
    }
  }

  /** `Payment.equals` is an equivalence relation, so it can serve as a map key's equality. */
  lemma EqualsIsEquivalence(p: Payment, q: Payment, r: Payment)
    ensures Equals(p, p)
    ensures Equals(p, q) ==> Equals(q, p)
    ensures Equals(p, q) && Equals(q, r) ==> Equals(p, r)
  {
  }

  /** A payment and its flip are the same edge, and they are the only payments equal to it. */
  lemma EqualsIsFlipOrSelf(p: Payment, q: Payment)
    ensures Equals(p, Flip(p))
    ensures Equals(q, p) <==> q == p || q == Flip(p)
  {
  }

  /** Java's `String.hashCode`: s[0]*31^(n-1) + ... + s[n-1] in 32-bit arithmetic. */
  function StringHash(s: string): bv32
  {
    if s == [] then 0 else StringHash(s[..|s| - 1]) * 31 + (s[|s| - 1] as int) as bv32
  }

  /** `Payment.hashCode`: the exclusive or of the two users' string hashes. */
  function HashCode(p: Payment): bv32
  {
    StringHash(p.user1) ^ StringHash(p.user2)
  }

  /** Equal payments hash alike, as a HashMap key requires; in particular (a, b) and (b, a) do. */
  lemma EqualsImpliesSameHash(p: Payment, q: Payment)
    requires Equals(p, q)
    ensures HashCode(p) == HashCode(q)
    ensures HashCode(p) == HashCode(Flip(p))
  {
  }

}
