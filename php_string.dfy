/** The PHP string semantics the plugin relies on: `empty()` and boolean
    conversion of a string, and the comparison operator `>=` between two
    strings that are not both numeric, which compares byte by byte as
    `strcmp` does. */
module PhpString {

  /** `empty($s)` for a string, which is also `!(bool)$s`: exactly the
      empty string and the one-character string "0" are empty. */
  predicate Empty(s: string)
  {
    s == "" || s == "0"
  }

  /** The sign of `strcmp(a, b)`: the first differing character decides,
      and a proper prefix sorts first. */
  function Compare(a: string, b: string): (r: int)
    ensures -1 <= r <= 1
    ensures r == 0 <==> a == b
  {
    if a == [] then (if b == [] then 0 else -1)
    else if b == [] then 1
    else if a[0] < b[0] then -1
    else if a[0] > b[0] then 1
    else Compare(a[1..], b[1..])
  }

  /** PHP's `$a >= $b` on two strings that are not both numeric. */
  predicate AtLeast(a: string, b: string)
  {
    Compare(a, b) >= 0
  }

  /** Swapping the operands flips the sign of the comparison. */
  lemma {:induction false} CompareAntisymmetric(a: string, b: string)
    ensures Compare(a, b) == -Compare(b, a)
  {
    if a != [] && b != [] && a[0] == b[0] {
      CompareAntisymmetric(a[1..], b[1..]);
    }
  }

  /** `<=` on strings is transitive. */
  lemma {:induction false} CompareTransitive(a: string, b: string, c: string)
    requires Compare(a, b) <= 0 && Compare(b, c) <= 0
    ensures Compare(a, c) <= 0
  {
    if a != [] && b != [] && c != [] && a[0] == b[0] == c[0] {
      CompareTransitive(a[1..], b[1..], c[1..]);
    }
  }

  /** Comparing two concatenations whose first parts have the same length:
      the first parts decide unless they are equal. */
  lemma {:induction false} CompareConcat(a1: string, a2: string, b1: string, b2: string)
    requires |a1| == |b1|
    ensures Compare(a1 + a2, b1 + b2) == if a1 == b1 then Compare(a2, b2) else Compare(a1, b1)
  {
    if a1 != [] {
      assert (a1 + a2)[0] == a1[0] && (b1 + b2)[0] == b1[0];
      assert (a1 + a2)[1..] == a1[1..] + a2;
      assert (b1 + b2)[1..] == b1[1..] + b2;
      CompareConcat(a1[1..], a2, b1[1..], b2);
      if a1[0] == b1[0] {
        assert a1 == b1 <==> a1[1..] == b1[1..] by {
          assert a1 == [a1[0]] + a1[1..];
          assert b1 == [b1[0]] + b1[1..];
        }
      }
    } else {
      assert a1 + a2 == a2 && b1 + b2 == b2;
    }
  }
}
