/** String operations the stores use whose meaning is fixed by ECMAScript:
    `String.prototype.includes` and the default (code-unit) order of `Array.prototype.sort`. */
module Strings {
  import opened Sorting

  /** `s.includes(sub)`: `sub` occurs in `s` at some offset. */
  predicate Contains(s: string, sub: string)
    decreases |s|
  {
    (|sub| <= |s| && s[..|sub|] == sub) || (s != [] && Contains(s[1..], sub))
  }

  /** A string contains every piece of a concatenation it equals. */
  lemma {:induction false} ContainsInfix(a: string, sub: string, b: string)
    ensures Contains(a + sub + b, sub)
  {
    if a == [] {
      assert a + sub + b == sub + b;
      assert (sub + b)[..|sub|] == sub;
    } else {
      assert (a + sub + b)[1..] == a[1..] + sub + b;
      ContainsInfix(a[1..], sub, b);
    }
  }

  /** The order in which `Array.prototype.sort()` without a comparator puts strings:
      lexicographic by character, a prefix first. */
  predicate CodeUnitLeq(a: string, b: string) {
    if a == [] then true
    else if b == [] then false
    else if a[0] != b[0] then a[0] < b[0]
    else CodeUnitLeq(a[1..], b[1..])
  }

  lemma {:induction false} CodeUnitTotal(a: string, b: string)
    ensures CodeUnitLeq(a, b) || CodeUnitLeq(b, a)
  {
    if a != [] && b != [] && a[0] == b[0] {
      CodeUnitTotal(a[1..], b[1..]);
    }
  }

  lemma {:induction false} CodeUnitTransitive(a: string, b: string, c: string)
    requires CodeUnitLeq(a, b) && CodeUnitLeq(b, c)
    ensures CodeUnitLeq(a, c)
  {
    if a != [] && b != [] && c != [] && a[0] == b[0] && b[0] == c[0] {
      CodeUnitTransitive(a[1..], b[1..], c[1..]);
    }
  }

  lemma {:induction false} CodeUnitAntisymmetric(a: string, b: string)
    requires CodeUnitLeq(a, b) && CodeUnitLeq(b, a)
    ensures a == b
  {
    if a != [] && b != [] {
      CodeUnitAntisymmetric(a[1..], b[1..]);
      assert a == [a[0]] + a[1..] && b == [b[0]] + b[1..];
    }
  }

  /** The default string order is a total preorder, so sorting by it sorts. */
  lemma CodeUnitOrderIsTotalPreorder()
    ensures TotalPreorder(CodeUnitLeq)
  {
    forall a, b ensures CodeUnitLeq(a, b) || CodeUnitLeq(b, a) {
      CodeUnitTotal(a, b);
    }
    forall a, b, c | CodeUnitLeq(a, b) && CodeUnitLeq(b, c) ensures CodeUnitLeq(a, c) {
      CodeUnitTransitive(a, b, c);
    }
  }
}
