/** The order in which vertical shifts are tried. */
module ScrollOrder {

  /** 1, -1, 2, -2, and so on. */
  function Candidate(k: nat): int {
    var a := k / 2 + 1;
    if k % 2 == 0 then a else -a
  }

  function Abs(x: int): nat {
    if x < 0 then -x else x
  }

  /** The first `2 * max` candidates are exactly the shifts of 1 to `max` rows. */
  lemma CandidateFor(dy: int, max: nat) returns (k: nat)
    requires 1 <= Abs(dy) <= max
    ensures k < 2 * max && Candidate(k) == dy
  {
    k := if dy > 0 then 2 * (dy - 1) else 2 * (-dy - 1) + 1;
  }

  /** Smaller shifts come first, and of two opposite ones the positive. */
  lemma CandidateOrder(j: nat, k: nat)
    requires j < k
    ensures Candidate(j) != Candidate(k)
    ensures Abs(Candidate(j)) < Abs(Candidate(k)) || (Candidate(j) == -Candidate(k) && Candidate(j) > 0)
  {
  }
}
