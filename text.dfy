/**
 * Texts of the game (room names, clues, suspect names).
 *
 * A C string is modelled by the characters before its terminator; each character
 * stands for one byte, so its code is in 0..255. `Compare` is the sign of `strcmp`,
 * which orders strings byte by byte as unsigned chars, a proper prefix first.
 */
module Text {

  datatype Ordering = Less | Equal | Greater

  /** The sign of `strcmp(a, b)`. */
  function Compare(a: string, b: string): (r: Ordering)
    ensures r == Equal <==> a == b
  {
    if a == [] then (if b == [] then Equal else Less)
    else if b == [] then Greater
    else if a[0] < b[0] then Less
    else if b[0] < a[0] then Greater
    else
      assert a == [a[0]] + a[1..] && b == [b[0]] + b[1..];
      Compare(a[1..], b[1..])
  }

  /** `strcmp(a, b) < 0` */
  predicate Precedes(a: string, b: string) {
    Compare(a, b) == Less
  }

  /** Swapping the operands of strcmp flips the sign. */
  lemma {:induction false} CompareFlip(a: string, b: string)
    ensures Compare(a, b) == Less <==> Compare(b, a) == Greater
  {
    if a != [] && b != [] && a[0] == b[0] {
      CompareFlip(a[1..], b[1..]);
    }
  }

  lemma PrecedesAsymmetric(a: string, b: string)
    requires Precedes(a, b)
    ensures !Precedes(b, a)
  {
    CompareFlip(a, b);
  }

  /** Exactly one of a < b, a == b, b < a holds. */
  lemma PrecedesTotal(a: string, b: string)
    ensures Precedes(a, b) || a == b || Precedes(b, a)
  {
    CompareFlip(b, a);
  }

  lemma {:induction false} PrecedesTransitive(a: string, b: string, c: string)
    requires Precedes(a, b) && Precedes(b, c)
    ensures Precedes(a, c)
  {
    if a != [] && b != [] && c != [] && a[0] == b[0] && b[0] == c[0] {
      PrecedesTransitive(a[1..], b[1..], c[1..]);
    }
  }
}
