// Total orders on strings, and least elements of finite sets.
module Orders {

  /** `str` comparison: code points first to last, a prefix before its extensions. */
  predicate LexLe(a: string, b: string)
    decreases |a|
  {
    if a == [] then true
    else if b == [] then false
    else a[0] < b[0] || (a[0] == b[0] && LexLe(a[1..], b[1..]))
  }

  lemma {:induction false} LexTotal(a: string, b: string)
    ensures LexLe(a, b) || LexLe(b, a)
    decreases |a|
  {
    if a != [] && b != [] && a[0] == b[0] { LexTotal(a[1..], b[1..]); }
  }

  lemma {:induction false} LexAntisymmetric(a: string, b: string)
    requires LexLe(a, b) && LexLe(b, a)
    ensures a == b
    decreases |a|
  {
    if a != [] {
      LexAntisymmetric(a[1..], b[1..]);
      assert a == [a[0]] + a[1..] && b == [b[0]] + b[1..];
    }
  }

  lemma {:induction false} LexTransitive(a: string, b: string, c: string)
    requires LexLe(a, b) && LexLe(b, c)
    ensures LexLe(a, c)
    decreases |a|
  {
    if a != [] && b != [] && c != [] && a[0] == b[0] == c[0] { LexTransitive(a[1..], b[1..], c[1..]); }
  }

  ghost predicate TotalOrder<T(!new)>(le: (T, T) -> bool) {
    && (forall x, y :: le(x, y) || le(y, x))
    && (forall x, y :: le(x, y) && le(y, x) ==> x == y)
    && (forall x, y, z :: le(x, y) && le(y, z) ==> le(x, z))
  }

  ghost predicate IsLeast<T>(le: (T, T) -> bool, s: set<T>, x: T) {
    x in s && forall y :: y in s ==> le(x, y)
  }

  lemma {:induction false} LeastExists<T(!new)>(le: (T, T) -> bool, s: set<T>)
    requires TotalOrder(le) && s != {}
    ensures exists x :: IsLeast(le, s, x)
    decreases s
  {
    var x :| x in s;
    if s == {x} {
      assert IsLeast(le, s, x);
    } else {
      LeastExists(le, s - {x});
      var rest :| IsLeast(le, s - {x}, rest);
      assert forall y :: y in s ==> y == x || y in s - {x};
      assert IsLeast(le, s, if le(x, rest) then x else rest);
    }
  }

  /** The least element of a non-empty finite set. */
  ghost function Least<T(!new)>(le: (T, T) -> bool, s: set<T>): (x: T)
    requires TotalOrder(le) && s != {}
    ensures IsLeast(le, s, x)
  {
    LeastExists(le, s);
    var x :| IsLeast(le, s, x);
    x
  }

  lemma LeastUnique<T(!new)>(le: (T, T) -> bool, s: set<T>, x: T, y: T)
    requires TotalOrder(le) && IsLeast(le, s, x) && IsLeast(le, s, y)
    ensures x == y
  {}

  /** Smaller number first, ties by string. */
  predicate LowThenLex(x: (nat, string), y: (nat, string)) {
    x.0 < y.0 || (x.0 == y.0 && LexLe(x.1, y.1))
  }

  /** Greater score first, ties by string. */
  predicate HighThenLex(x: (real, string), y: (real, string)) {
    x.0 > y.0 || (x.0 == y.0 && LexLe(x.1, y.1))
  }

  lemma LowThenLexIsTotal()
    ensures TotalOrder(LowThenLex)
  {
    forall x, y ensures LowThenLex(x, y) || LowThenLex(y, x) { LexTotal(x.1, y.1); }
    forall x, y | LowThenLex(x, y) && LowThenLex(y, x) ensures x == y { LexAntisymmetric(x.1, y.1); }
    forall x, y, z | LowThenLex(x, y) && LowThenLex(y, z) ensures LowThenLex(x, z) {
      if LexLe(x.1, y.1) && LexLe(y.1, z.1) { LexTransitive(x.1, y.1, z.1); }
    }
  }

  lemma HighThenLexIsTotal()
    ensures TotalOrder(HighThenLex)
  {
    forall x, y ensures HighThenLex(x, y) || HighThenLex(y, x) { LexTotal(x.1, y.1); }
    forall x, y | HighThenLex(x, y) && HighThenLex(y, x) ensures x == y { LexAntisymmetric(x.1, y.1); }
    forall x, y, z | HighThenLex(x, y) && HighThenLex(y, z) ensures HighThenLex(x, z) {
      if LexLe(x.1, y.1) && LexLe(y.1, z.1) { LexTransitive(x.1, y.1, z.1); }
    }
  }
}
